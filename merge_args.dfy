/**
 * Command line of merge_split_bam:
 *   merge_split_bam <input_prefix> <input_num> <output_num> [--out BAM|SAM]
 * and the file names derived from it (`prefix.i.bam` for the inputs,
 * `prefix.sorted.split.b.bam|sam` for the outputs).
 */
module MergeSplitArgs {
  import opened Common
  import opened CNumbers

  datatype Format = BAM | SAM

  datatype ArgError =
    | Usage                      // fewer than three positional arguments
    | BadNumber(arg: string)     // std::stoi throws on a count
    | InvalidOut(value: string)  // --out followed by something other than BAM or SAM
    | UnknownArgument(arg: string)
    | NonPositiveCount           // input_num <= 0 or output_num <= 0

  datatype Args = Args(prefix: string, inputNum: nat, outputNum: nat, format: Format)

  function FormatOf(v: string): Format {
    if v == "SAM" then SAM else BAM
  }

  /**
   * What goes wrong with the extra argument that starts at index `i` of the
   * extra arguments, reading it as the head of a `--out V` pair; None if the pair is fine.
   */
  function PairError(extras: seq<string>, i: nat): Option<ArgError>
    requires i < |extras|
  {
    if extras[i] == "--out" && i + 1 < |extras| then
      if extras[i + 1] == "BAM" || extras[i + 1] == "SAM" then None
      else Some(InvalidOut(extras[i + 1]))
    else Some(UnknownArgument(extras[i]))
  }

  /** The extra arguments are a sequence of well-formed `--out V` pairs. */
  predicate WellFormedExtras(extras: seq<string>) {
    forall i :: 0 <= i < |extras| && i % 2 == 0 ==> PairError(extras, i).None?
  }

  /** The format the extra arguments select: the last `--out` value, BAM when there is none. */
  function LastFormat(extras: seq<string>): Format {
    if extras == [] then BAM else FormatOf(Last(extras))
  }

  /** The first bad `--out` pair of the extra arguments starts at index `k`. */
  predicate FirstBadPair(extras: seq<string>, k: nat, e: ArgError) {
    && k < |extras| && k % 2 == 0
    && PairError(extras, k) == Some(e)
    && forall j :: 0 <= j < k && j % 2 == 0 ==> PairError(extras, j).None?
  }

  /**
   * The loop over `argv[4..]` in `main`: every extra argument must be part of
   * a `--out BAM|SAM` pair; the last pair decides the format.
   */
  method ParseExtras(extras: seq<string>) returns (r: Result<Format, ArgError>)
    ensures r.Ok? <==> WellFormedExtras(extras)
    ensures r.Ok? ==> r.value == LastFormat(extras)
    ensures r.Err? ==> exists k :: FirstBadPair(extras, k, r.error)
  {
    var format := BAM;
    var i := 0;
    while i < |extras|
      invariant 0 <= i <= |extras| && i % 2 == 0
      invariant forall j :: 0 <= j < i && j % 2 == 0 ==> PairError(extras, j).None?
      invariant format == if i == 0 then BAM else FormatOf(extras[i - 1])
    {
      if extras[i] == "--out" && i + 1 < |extras| {
        var v := extras[i + 1];
        if v != "BAM" && v != "SAM" {
          assert FirstBadPair(extras, i, InvalidOut(v));
          return Err(InvalidOut(v));
        }
        format := if v == "BAM" then BAM else SAM;
      } else {
        assert FirstBadPair(extras, i, UnknownArgument(extras[i]));
        return Err(UnknownArgument(extras[i]));
      }
      i := i + 2;
    }
    return Ok(format);
  }

  /**
   * The argument checks at the top of `main`. The counts are read with
   * `std::stoi` before the extra arguments are looked at; the first bad extra
   * argument is fatal; both counts must be positive.
   */
  method ParseArgs(argv: seq<string>) returns (r: Result<Args, ArgError>)
    ensures |argv| < 4 ==> r == Err(Usage)
    ensures |argv| >= 4 && Stoi(argv[2]).None? ==> r == Err(BadNumber(argv[2]))
    ensures |argv| >= 4 && Stoi(argv[2]).Some? && Stoi(argv[3]).None? ==> r == Err(BadNumber(argv[3]))
    ensures |argv| >= 4 && Stoi(argv[2]).Some? && Stoi(argv[3]).Some? && !WellFormedExtras(argv[4..]) ==>
      r.Err? && exists k :: FirstBadPair(argv[4..], k, r.error)
    ensures r.Ok? <==>
      |argv| >= 4 && Stoi(argv[2]).Some? && Stoi(argv[3]).Some? && WellFormedExtras(argv[4..]) &&
      Stoi(argv[2]).value > 0 && Stoi(argv[3]).value > 0
    ensures r.Ok? ==>
      r.value == Args(argv[1], Stoi(argv[2]).value, Stoi(argv[3]).value, LastFormat(argv[4..]))
    ensures r == Err(NonPositiveCount) ==>
      WellFormedExtras(argv[4..]) && (Stoi(argv[2]).value <= 0 || Stoi(argv[3]).value <= 0)
    ensures
      (&& |argv| >= 4 && Stoi(argv[2]).Some? && Stoi(argv[3]).Some? && WellFormedExtras(argv[4..])
       && (Stoi(argv[2]).value <= 0 || Stoi(argv[3]).value <= 0))
      ==> r == Err(NonPositiveCount)
  {
    if |argv| < 4 {
      return Err(Usage);
    }
    var inputNum := Stoi(argv[2]);
    if inputNum.None? {
      return Err(BadNumber(argv[2]));
    }
    var outputNum := Stoi(argv[3]);
    if outputNum.None? {
      return Err(BadNumber(argv[3]));
    }
    var format := ParseExtras(argv[4..]);
    if format.Err? {
      return Err(format.error);
    }
    if inputNum.value <= 0 || outputNum.value <= 0 {
      return Err(NonPositiveCount);
    }
    r := Ok(Args(argv[1], inputNum.value, outputNum.value, format.value));
  }

  /**
   * A command line written out from its parts meets every condition under
   * which ParseArgs succeeds, and carries those parts.
   */
  lemma CommandLineRoundTrip(prog: string, prefix: string, inputNum: nat, outputNum: nat, extras: seq<string>)
    requires 0 < inputNum <= INT32_MAX && 0 < outputNum <= INT32_MAX
    requires WellFormedExtras(extras)
    ensures var argv := [prog, prefix, NatToString(inputNum), NatToString(outputNum)] + extras;
      && argv[1] == prefix && argv[4..] == extras
      && Stoi(argv[2]) == Some(inputNum) && Stoi(argv[3]) == Some(outputNum)
      && WellFormedExtras(argv[4..]) && Stoi(argv[2]).value > 0 && Stoi(argv[3]).value > 0
  {
    StoiNatToString(inputNum);
    StoiNatToString(outputNum);
  }

  /** `snprintf(path, 1024, "%s.%d.bam", prefix, i)` as intended: no truncation. */
  function InputPath(prefix: string, i: nat): string {
    prefix + "." + NatToString(i) + ".bam"
  }

  function Extension(f: Format): string {
    if f == BAM then "bam" else "sam"
  }

  /** `prefix + ".sorted.split." + to_string(b) + "." + ext`. */
  function OutputPath(prefix: string, b: nat, f: Format): string {
    prefix + ".sorted.split." + NatToString(b) + "." + Extension(f)
  }

  /** The middle part of a concatenation can be read back at its offset. */
  lemma Middle(a: string, d: string, c: string)
    ensures (a + d + c)[|a|..|a| + |d|] == d
  {
  }

  /** Distinct input indices name distinct input files. */
  lemma {:induction false} InputPathInjective(prefix: string, i: nat, j: nat)
    requires InputPath(prefix, i) == InputPath(prefix, j)
    ensures i == j
  {
    var di, dj := NatToString(i), NatToString(j);
    Middle(prefix + ".", di, ".bam");
    Middle(prefix + ".", dj, ".bam");
    NatToStringInjective(i, j);
  }

  /** Distinct output indices, or distinct formats, name distinct output files. */
  lemma {:induction false} OutputPathInjective(prefix: string, b1: nat, b2: nat, f1: Format, f2: Format)
    requires OutputPath(prefix, b1, f1) == OutputPath(prefix, b2, f2)
    ensures b1 == b2 && f1 == f2
  {
    var p := OutputPath(prefix, b1, f1);
    var a := prefix + ".sorted.split.";
    var d1, d2 := NatToString(b1), NatToString(b2);
    var e1, e2 := "." + Extension(f1), "." + Extension(f2);
    assert p == a + d1 + e1 == a + d2 + e2;
    Middle(a, d1, e1);
    Middle(a, d2, e2);
    NatToStringInjective(b1, b2);
    assert p[|p| - 3] == Extension(f1)[0] == Extension(f2)[0];
  }

  /** No output file ever overwrites an input file. */
  lemma {:induction false} OutputIsNeverInput(prefix: string, i: nat, b: nat, f: Format)
    ensures InputPath(prefix, i) != OutputPath(prefix, b, f)
  {
    var ip, op := InputPath(prefix, i), OutputPath(prefix, b, f);
    assert ip[|prefix| + 1] == NatToString(i)[0];
    assert op[|prefix| + 1] == 's';
  }

  // ---------------------------------------------------------------------
  // As written, the input path is formatted into `char path[1024]` with
  // snprintf, which silently keeps only the first 1023 characters.

  const PATH_BUFFER_SIZE: nat := 1024

  /** What snprintf leaves in a buffer of `size` bytes: at most size - 1 characters. */
  function Truncate(s: string, size: nat): (r: string)
    requires size > 0
    ensures |r| < size && r <= s
    ensures |r| == if |s| < size then |s| else size - 1
  {
    if |s| < size then s else s[..size - 1]
  }

  function InputPathAsWritten(prefix: string, i: nat): string {
    Truncate(InputPath(prefix, i), PATH_BUFFER_SIZE)
  }

  /** With a prefix of 1021 characters, inputs 1 and 10 are read from the same file. */
  lemma InputPathAsWrittenCollides()
    ensures var p := seq(1021, _ => 'a');
      InputPathAsWritten(p, 1) == InputPathAsWritten(p, 10) == p + ".1"
  {
    var p := seq(1021, _ => 'a');
    assert NatToString(1) == "1";
    assert NatToString(10) == NatToString(1) + "0";
    assert InputPath(p, 1)[..1023] == p + ".1";
    assert InputPath(p, 10)[..1023] == p + ".1";
  }

  /** For prefixes short enough to fit, the written path is the intended one. */
  lemma InputPathAsWrittenShort(prefix: string, i: nat)
    requires |InputPath(prefix, i)| < PATH_BUFFER_SIZE
    ensures InputPathAsWritten(prefix, i) == InputPath(prefix, i)
  {
  }
}
