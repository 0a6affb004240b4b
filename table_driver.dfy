/**
 * The line loop of `hisat_3n_table`: header and unlocated lines are
 * skipped; a record on a new reference loads that reference; the reference
 * window grows block by block until it covers the record's position; a
 * record before the previous one of the same run stops the program; every
 * other record line is handed to the position table.
 *
 * The position table (`Positions`) is not part of this model. It stands here
 * as an oracle: it remembers the reference it loaded, how many blocks of it
 * it has loaded, and the lines handed to it, and a fixed function answers
 * whether the k-th load of a reference reaches the reference's end.
 */
module TableDriver {
  import opened Common
  import opened CNumbers
  import opened SamLine

  const LOADING_BLOCK_SIZE: int := 1000000
  const INF: int := 0x3f3f3f3f

  /** How far the window end moves after a load: to "infinity" once the reference's end is met. */
  function Step(meetNext: bool): (s: int)
    ensures LOADING_BLOCK_SIZE <= s <= INF
  {
    if meetNext then INF else LOADING_BLOCK_SIZE
  }

  class Positions {
    var chromosome: string
    var loads: nat
    var appended: seq<string>
    const meetsEnd: (string, nat) -> bool

    constructor (meetsEnd: (string, nat) -> bool)
      ensures chromosome == "" && loads == 0 && appended == [] && this.meetsEnd == meetsEnd
    {
      chromosome, loads, appended := "", 0, [];
      this.meetsEnd := meetsEnd;
    }

    /** `loadNewChromosome(name, meetNext)`: the first block of `name`. */
    method LoadNewChromosome(name: string) returns (meetNext: bool)
      modifies this
      ensures chromosome == name && loads == 1 && appended == old(appended)
      ensures meetNext == meetsEnd(name, 0)
    {
      chromosome, loads := name, 1;
      meetNext := meetsEnd(name, 0);
    }

    /** `loadMore(meetNext)`: the next block of the current reference. */
    method LoadMore() returns (meetNext: bool)
      modifies this
      ensures chromosome == old(chromosome) && loads == old(loads) + 1 && appended == old(appended)
      ensures meetNext == meetsEnd(chromosome, old(loads))
    {
      meetNext := meetsEnd(chromosome, loads);
      loads := loads + 1;
    }

    /** `appendSync(line)`. */
    method AppendSync(line: string)
      modifies this
      ensures appended == old(appended) + [line]
      ensures chromosome == old(chromosome) && loads == old(loads)
    {
      appended := appended + [line];
    }
  }

  // ------------------------------------------------------------------
  // The reference window

  /**
   * The window end after growing from `reload`, with `k` blocks of `chr`
   * loaded, until it covers `samPos`; and the number of blocks loaded then.
   */
  function Advanced(reload: int, samPos: int, chr: string, k: nat, meetsEnd: (string, nat) -> bool): (int, nat)
    decreases if samPos > reload then samPos - reload else 0
  {
    if samPos > reload then Advanced(reload + Step(meetsEnd(chr, k)), samPos, chr, k + 1, meetsEnd)
    else (reload, k)
  }

  /**
   * The grown window covers the position and overshoots it by less than one
   * step; an already covering window is left alone; every load moves the end
   * by at least one block.
   */
  lemma {:induction false} AdvancedCovers(reload: int, samPos: int, chr: string, k: nat, meetsEnd: (string, nat) -> bool)
    ensures var (r, loads) := Advanced(reload, samPos, chr, k, meetsEnd);
      && samPos <= r
      && (samPos <= reload ==> r == reload && loads == k)
      && (samPos > reload ==> r - INF < samPos && loads > k)
      && r >= reload + (loads - k) * LOADING_BLOCK_SIZE
    decreases if samPos > reload then samPos - reload else 0
  {
    if samPos > reload {
      var next := reload + Step(meetsEnd(chr, k));
      AdvancedCovers(next, samPos, chr, k + 1, meetsEnd);
    }
  }

  /** A reference whose every block meets its end, so that each load moves the window by INF. */
  function ShortReference(chr: string, k: nat): bool {
    true
  }

  /** Growing by INF only, a window end that is a multiple of INF stays one. */
  lemma {:induction false} AdvancedByInf(reload: int, samPos: int, chr: string, k: nat)
    requires reload % INF == 0
    ensures Advanced(reload, samPos, chr, k, ShortReference).0 % INF == 0
    decreases if samPos > reload then samPos - reload else 0
  {
    if samPos > reload {
      AdvancedByInf(reload + INF, samPos, chr, k + 1);
    }
  }

  /**
   * As written, `reloadPos` is a `long long`. For a record whose POS lies
   * above the last multiple of INF below LLONG_MAX (POS = LLONG_MAX, which
   * `stoll` accepts, is one), on a reference whose first block already meets
   * its end, the window end the loop computes lies beyond LLONG_MAX: the
   * last `reloadPos += INF` overflows.
   */
  lemma AdvancedOverflowsLongLong(chr: string, samPos: int)
    requires INT64_MAX - INT64_MAX % INF < samPos <= INT64_MAX
    ensures Stoll(NatToString(samPos)) == Some(samPos)
    ensures Step(ShortReference(chr, 0)) == INF
    ensures Advanced(INF, samPos, chr, 1, ShortReference).0 > INT64_MAX
  {
    StollNatToString(samPos);
    AdvancedByInf(INF, samPos, chr, 1);
    AdvancedCovers(INF, samPos, chr, 1, ShortReference);
  }

  /** The inner `while (samPos > reloadPos)` loop. */
  method AdvanceWindow(positions: Positions, samPos: int, reloadPos: int) returns (newReload: int)
    modifies positions
    ensures (newReload, positions.loads) ==
      Advanced(reloadPos, samPos, positions.chromosome, old(positions.loads), positions.meetsEnd)
    ensures positions.chromosome == old(positions.chromosome) && positions.appended == old(positions.appended)
  {
    newReload := reloadPos;
    while samPos > newReload
      invariant positions.chromosome == old(positions.chromosome) && positions.appended == old(positions.appended)
      invariant Advanced(newReload, samPos, positions.chromosome, positions.loads, positions.meetsEnd) ==
        Advanced(reloadPos, samPos, positions.chromosome, old(positions.loads), positions.meetsEnd)
      decreases samPos - newReload
    {
      var meetNext := positions.LoadMore();
      newReload := newReload + Step(meetNext);
    }
  }

  // ------------------------------------------------------------------
  // What the loop makes of the input

  /** One located record: its reference, its position and its line. */
  datatype Entry = Entry(chr: string, pos: int, line: string)

  /** What the loop does with one line: skip it, treat it as a record, or die in `stoll`. */
  datatype LineKind = Skip | Record(chr: string, pos: int) | Throws

  function Classify(line: string): LineKind {
    if line == [] || line[0] == '@' then Skip
    else
      var f := Fields(line);
      if |f| < 5 then Skip
      else
        match Stoll(f[3])
        case None => Throws
        case Some(p) => if f[2] == "*" then Skip else Record(f[2], p)
  }

  /** What the loop makes of each line. */
  function Kinds(lines: seq<string>): (ks: seq<LineKind>)
    ensures |ks| == |lines|
  {
    if lines == [] then [] else Kinds(Init(lines)) + [Classify(Last(lines))]
  }

  lemma {:induction false} KindAt(lines: seq<string>, i: nat)
    requires i < |lines|
    ensures Kinds(lines)[i] == Classify(lines[i])
  {
    if i < |lines| - 1 {
      KindAt(Init(lines), i);
    }
  }

  /** The records among the first `n` of `lines`, whose kinds are `ks`, in input order. */
  function Records(lines: seq<string>, ks: seq<LineKind>, n: nat): seq<Entry>
    requires |ks| == |lines| && n <= |lines|
  {
    if n == 0 then []
    else
      Records(lines, ks, n - 1) +
        if ks[n - 1].Record? then [Entry(ks[n - 1].chr, ks[n - 1].pos, lines[n - 1])] else []
  }

  function LinesOf(es: seq<Entry>): (ls: seq<string>)
    ensures |ls| == |es| && forall i :: 0 <= i < |es| ==> ls[i] == es[i].line
  {
    seq(|es|, i requires 0 <= i < |es| => es[i].line)
  }

  lemma LinesOfAppend(es: seq<Entry>, e: Entry)
    ensures LinesOf(es + [e]) == LinesOf(es) + [e.line]
  {
    assert forall i :: 0 <= i < |es| + 1 ==> LinesOf(es + [e])[i] == (LinesOf(es) + [e.line])[i];
  }

  /** None of the first `n` lines makes `stoll` throw. */
  predicate NoThrow(ks: seq<LineKind>, n: nat)
    requires n <= |ks|
  {
    forall i :: 0 <= i < n ==> !ks[i].Throws?
  }

  /** The position a record is compared with: the previous one of its run, 0 at the start of a run. */
  function PreviousPos(es: seq<Entry>, i: nat): int
    requires i < |es|
  {
    if i == 0 || es[i - 1].chr != es[i].chr then 0 else es[i - 1].pos
  }

  /**
   * Coordinate-sorted as the loop checks it: within each run of records on
   * one reference positions never decrease, and a run never starts below 0.
   */
  predicate SortedRuns(es: seq<Entry>) {
    forall i {:trigger PreviousPos(es, i)} :: 0 <= i < |es| ==> PreviousPos(es, i) <= es[i].pos
  }

  /** Adding a record keeps the records sorted exactly when it is not before the one it is compared with. */
  lemma SortedRunsAppend(es: seq<Entry>, e: Entry)
    ensures SortedRuns(es + [e]) <==>
      SortedRuns(es) && (if es == [] || Last(es).chr != e.chr then 0 else Last(es).pos) <= e.pos
  {
    var es' := es + [e];
    assert forall i :: 0 <= i < |es| ==> PreviousPos(es', i) == PreviousPos(es, i);
    assert PreviousPos(es', |es|) == if es == [] || Last(es).chr != e.chr then 0 else Last(es).pos;
  }

  /** One more line adds its record, if it is one. */
  lemma RecordsNext(lines: seq<string>, ks: seq<LineKind>, i: nat)
    requires |ks| == |lines| && i < |lines|
    ensures Records(lines, ks, i + 1) ==
      Records(lines, ks, i) + if ks[i].Record? then [Entry(ks[i].chr, ks[i].pos, lines[i])] else []
  {
  }

  /** A prefix of the lines holds a prefix of the records. */
  lemma {:induction false} RecordsPrefix(lines: seq<string>, ks: seq<LineKind>, k: nat, n: nat)
    requires |ks| == |lines| && k <= n <= |lines|
    ensures |Records(lines, ks, k)| <= |Records(lines, ks, n)|
    ensures Records(lines, ks, n)[..|Records(lines, ks, k)|] == Records(lines, ks, k)
    decreases n - k
  {
    if k < n {
      RecordsPrefix(lines, ks, k, n - 1);
      var r := Records(lines, ks, n - 1);
      assert Records(lines, ks, n)[..|r|] == r;
    }
  }

  /** Records sorted as a whole are sorted in every prefix. */
  lemma SortedRunsPrefix(es: seq<Entry>, k: nat)
    requires k <= |es|
    ensures SortedRuns(es) ==> SortedRuns(es[..k])
  {
    assert forall i :: 0 <= i < k ==> PreviousPos(es[..k], i) == PreviousPos(es, i);
  }

  /**
   * A file of records grouped by reference, with positions non-negative and
   * non-decreasing within each reference, passes; equal positions are fine.
   */
  lemma GroupedSortedPasses(es: seq<Entry>)
    requires forall i :: 0 <= i < |es| ==> 0 <= es[i].pos
    requires forall i, j :: 0 <= i < j < |es| && es[i].chr == es[j].chr ==> es[i].pos <= es[j].pos
    ensures SortedRuns(es)
  {
  }

  /**
   * A sorted input that returns to a reference after another one is still
   * accepted: the check is per run, and a new run compares with 0.
   */
  lemma ReturningReferenceAccepted(a: string, b: string, l1: string, l2: string, l3: string)
    requires a != b
    ensures SortedRuns([Entry(a, 500, l1), Entry(b, 10, l2), Entry(a, 100, l3)])
  {
  }

  /** Header lines and empty lines are never records. */
  lemma HeaderLinesSkipped(line: string)
    requires line == [] || line[0] == '@'
    ensures Classify(line) == Skip
  {
  }

  /** A line whose RNAME is a name other than `*` and whose POS is a printed number is the record at that name and position. */
  lemma RecordLine(qname: string, flag: string, rname: string, p: nat, rest: seq<string>)
    requires TabFree(qname) && TabFree(flag) && TabFree(rname) && rname != "*"
    requires qname != [] && qname[0] != '@'
    requires p <= INT64_MAX && |rest| > 0 && forall i :: 0 <= i < |rest| ==> TabFree(rest[i])
    ensures Classify(JoinTabs([qname, flag, rname, NatToString(p)] + rest)) == Record(rname, p)
  {
    var fields := [qname, flag, rname, NatToString(p)] + rest;
    var line := JoinTabs(fields);
    LocatedLine(qname, flag, rname, p, rest, "", 0);
    assert line == qname + "\t" + JoinTabs(fields[1..]);
    assert line[0] == qname[0];
  }

  // ------------------------------------------------------------------
  // The loop

  /**
   * The filter at the top of the loop body: empty and header lines are
   * skipped before `getSAMChromosomePos` is called; a located record carries
   * the reference and position it stores.
   */
  method ScanLine(line: string, chr: string, pos: int) returns (kind: LineKind, chr': string, pos': int)
    ensures kind == Classify(line)
    ensures kind.Record? ==> chr' == kind.chr && pos' == kind.pos
  {
    chr', pos' := chr, pos;
    if line == [] || line[0] == '@' {
      return Skip, chr', pos';
    }
    var scan;
    scan, chr', pos' := GetSAMChromosomePos(line, chr, pos);
    if scan.StollThrew? {
      return Throws, chr', pos';
    }
    if !scan.located {
      return Skip, chr', pos';
    }
    return Record(chr', pos'), chr', pos';
  }

  /** `ScanLine` on the line at index `i`, stated in terms of the kinds of all lines. */
  method ScanLineAt(lines: seq<string>, i: nat, chr: string, pos: int) returns (kind: LineKind, chr': string, pos': int)
    requires i < |lines|
    ensures kind == Kinds(lines)[i]
    ensures kind.Record? ==> chr' == kind.chr && pos' == kind.pos
  {
    kind, chr', pos' := ScanLine(lines[i], chr, pos);
    KindAt(lines, i);
  }

  /**
   * The chromosome switch and the window advance for a located record: a
   * record on another reference (or the first one) loads its reference
   * and restarts the order check at 0; then the window grows until it
   * covers the record.
   */
  method MoveTo(positions: Positions, chr: string, samPos: int, loaded: bool, lastPos: int, reloadPos: int)
    returns (lastPos': int, reloadPos': int)
    modifies positions
    ensures positions.chromosome == chr && positions.appended == old(positions.appended)
    ensures lastPos' == if loaded && chr == old(positions.chromosome) then lastPos else 0
    ensures samPos <= reloadPos'
    ensures var switched := !loaded || chr != old(positions.chromosome);
      var start := if switched then Step(positions.meetsEnd(chr, 0)) else reloadPos;
      var k := if switched then 1 else old(positions.loads);
      (reloadPos', positions.loads) == Advanced(start, samPos, chr, k, positions.meetsEnd)
  {
    lastPos', reloadPos' := lastPos, reloadPos;
    if !loaded || chr != positions.chromosome {
      var meetNext := positions.LoadNewChromosome(chr);
      reloadPos' := Step(meetNext);
      lastPos' := 0;
    }
    ghost var r0, k0 := reloadPos', positions.loads;
    reloadPos' := AdvanceWindow(positions, samPos, reloadPos');
    AdvancedCovers(r0, samPos, positions.chromosome, k0, positions.meetsEnd);
  }

  /**
   * Everything the loop does with a located record: switch reference and
   * advance the window, then stop if the record is before the one it is
   * compared with, or else hand the line to the position table.
   */
  method PlaceRecord(positions: Positions, chr: string, samPos: int, line: string, loaded: bool, lastPos: int, reloadPos: int)
    returns (inOrder: bool, lastPos': int, reloadPos': int)
    modifies positions
    ensures positions.chromosome == chr && samPos <= reloadPos'
    ensures inOrder <==> (if loaded && chr == old(positions.chromosome) then lastPos else 0) <= samPos
    ensures positions.appended == old(positions.appended) + if inOrder then [line] else []
    ensures inOrder ==> lastPos' == samPos
  {
    lastPos', reloadPos' := MoveTo(positions, chr, samPos, loaded, lastPos, reloadPos);
    inOrder := lastPos' <= samPos;
    if inOrder {
      positions.AppendSync(line);
      lastPos' := samPos;
    }
  }

  /** How the loop ends: at end of input, at an out-of-order record, or in an exception from `stoll`. */
  datatype TableOutcome = Done | Unsorted(at: nat) | Exception(at: nat)

  /** The exit status `main` returns for the loop's outcome (an exception is caught there and gives 1). */
  function ExitStatus(o: TableOutcome): int {
    if o.Done? then 0 else 1
  }

  /**
   * The `while (fgets(...))` loop of `hisat_3n_table`. It ends normally
   * exactly when no line throws and the records are sorted run by run; then
   * every record line, and only those, went to the position table in input
   * order. Otherwise it stops at the first line that throws or is out of
   * order, having passed on the record lines before it.
   */
  method Table(lines: seq<string>, positions: Positions) returns (outcome: TableOutcome)
    modifies positions
    ensures var ks, n := Kinds(lines), |lines|;
      outcome.Done? <==> NoThrow(ks, n) && SortedRuns(Records(lines, ks, n))
    ensures var ks, n := Kinds(lines), |lines|;
      ExitStatus(outcome) == 0 <==> NoThrow(ks, n) && SortedRuns(Records(lines, ks, n))
    ensures var ks, n := Kinds(lines), |lines|;
      outcome.Done? ==> positions.appended == old(positions.appended) + LinesOf(Records(lines, ks, n))
    ensures var ks := Kinds(lines);
      outcome.Unsorted? ==> var i := outcome.at;
        && i < |lines| && ks[i].Record? && NoThrow(ks, i + 1)
        && SortedRuns(Records(lines, ks, i)) && !SortedRuns(Records(lines, ks, i + 1))
        && positions.appended == old(positions.appended) + LinesOf(Records(lines, ks, i))
    ensures var ks := Kinds(lines);
      outcome.Exception? ==> var i := outcome.at;
        && i < |lines| && ks[i].Throws? && NoThrow(ks, i)
        && SortedRuns(Records(lines, ks, i))
        && positions.appended == old(positions.appended) + LinesOf(Records(lines, ks, i))
  {
    ghost var ks := Kinds(lines);
    outcome := Done;
    var samChromosome := "";
    var samPos := 0;
    var reloadPos := 0;
    var lastPos := 0;
    var firstChromLoaded := false;
    var i := 0;
    ghost var es: seq<Entry> := [];
    while i < |lines|
      invariant 0 <= i <= |lines|
      invariant es == Records(lines, ks, i)
      invariant NoThrow(ks, i) && SortedRuns(es)
      invariant positions.appended == old(positions.appended) + LinesOf(es)
      invariant firstChromLoaded <==> es != []
      invariant firstChromLoaded ==> positions.chromosome == Last(es).chr && lastPos == Last(es).pos
    {
      var line := lines[i];
      var kind;
      kind, samChromosome, samPos := ScanLineAt(lines, i, samChromosome, samPos);
      RecordsNext(lines, ks, i);
      if kind.Throws? {
        outcome := Exception(i);
        break;
      }
      if kind.Skip? {
        i := i + 1;
        continue;
      }
      ghost var e := Entry(samChromosome, samPos, line);
      SortedRunsAppend(es, e);
      var inOrder;
      inOrder, lastPos, reloadPos := PlaceRecord(positions, samChromosome, samPos, line, firstChromLoaded, lastPos, reloadPos);
      firstChromLoaded := true;
      if !inOrder {
        RecordsPrefix(lines, ks, i + 1, |lines|);
        SortedRunsPrefix(Records(lines, ks, |lines|), |Records(lines, ks, i + 1)|);
        outcome := Unsorted(i);
        break;
      }
      LinesOfAppend(es, e);
      es := es + [e];
      i := i + 1;
    }
  }
}
