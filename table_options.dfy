/**
 * Command-line options of hisat-3n-table: the program keeps them in global
 * variables that `parseOption` sets one option at a time, after which
 * `parseOptions` checks them together. Options that end the program throw an
 * int (0 for `--help`, 1 for every error), which `main` returns as the exit
 * status. Whether a file exists is a set of existing paths.
 */
module TableOptions {
  import opened Common

  /** The values of the option globals. */
  datatype Config = Config(
    alignmentFileName: string,
    useStdin: bool,
    refFileName: string,
    outputFileName: string,
    uniqueOnly: bool,
    multipleOnly: bool,
    cgOnly: bool,
    convertFrom: char,
    convertTo: char,
    addedChrName: bool,
    removedChrName: bool)

  /** The globals' initial values; '0' marks a base change not given yet. */
  const Defaults := Config("", true, "", "", false, false, false, '0', '0', false, false)

  /** What `getopt_long` hands to `parseOption`, one case per option it knows, and anything else. */
  datatype Opt =
    | Alignments(name: string)
    | Ref(name: string)
    | OutputName(name: string)
    | BaseChange(arg: string)
    | UniqueOnly
    | MultipleOnly
    | CGOnly
    | Threads(arg: string)
    | AddedChrName
    | RemovedChrName
    | Help
    | Unrecognized

  /** `toupper` in the C locale. */
  function ToUpper(c: char): (u: char)
    ensures 'a' <= c <= 'z' ==> 'A' <= u <= 'Z' && u as int == c as int - 32
    ensures !('a' <= c <= 'z') ==> u == c
  {
    if 'a' <= c <= 'z' then (c as int - 32) as char else c
  }

  /** The `X,Y` shape `--base-change` demands. */
  predicate BaseChangeShape(arg: string) {
    |arg| == 3 && arg[1] == ','
  }

  /** The int `parseOption` throws for an option, if it throws. */
  function OptionThrow(o: Opt, existing: set<string>): Option<int> {
    match o
    case Alignments(name) => if name != "-" && name !in existing then Some(1) else None
    case Ref(name) => if name !in existing then Some(1) else None
    case BaseChange(arg) => if BaseChangeShape(arg) then None else Some(1)
    case Help => Some(0)
    case Unrecognized => Some(1)
    case _ => None
  }

  /**
   * The globals after `parseOption`. A file name is stored before its check,
   * a malformed base change stores nothing.
   */
  function OptionEffect(c: Config, o: Opt): Config {
    match o
    case Alignments(name) => c.(alignmentFileName := name, useStdin := name == "-")
    case Ref(name) => c.(refFileName := name)
    case OutputName(name) => c.(outputFileName := name)
    case BaseChange(arg) =>
      if BaseChangeShape(arg) then c.(convertFrom := ToUpper(arg[0]), convertTo := ToUpper(arg[2])) else c
    case UniqueOnly => c.(uniqueOnly := true)
    case MultipleOnly => c.(multipleOnly := true)
    case CGOnly => c.(cgOnly := true)
    case AddedChrName => c.(addedChrName := true)
    case RemovedChrName => c.(removedChrName := true)
    case _ => c
  }

  /** The `getopt_long` loop: options in order, the first throw ends it. */
  function ParseAll(c: Config, opts: seq<Opt>, existing: set<string>): Result<Config, int> {
    if opts == [] then Ok(c)
    else
      match ParseAll(c, Init(opts), existing)
      case Err(code) => Err(code)
      case Ok(c') =>
        match OptionThrow(Last(opts), existing)
        case Some(code) => Err(code)
        case None => Ok(OptionEffect(c', Last(opts)))
  }

  /** The checks after the loop, in their order; CG-only mode imposes C,T before the base change is required. */
  function Validate(c: Config): Result<Config, int> {
    if c.refFileName == "" || c.alignmentFileName == "" then Err(1)
    else
      var c' := if c.cgOnly && (c.convertFrom != 'C' || c.convertTo != 'T') then c.(convertFrom := 'C', convertTo := 'T') else c;
      if c'.convertFrom == '0' || c'.convertTo == '0' then Err(1)
      else if c'.removedChrName && c'.addedChrName then Err(1)
      else if c'.uniqueOnly && c'.multipleOnly then Err(1)
      else Ok(c')
  }

  /** `parseOptions` from the initial globals. */
  function Options(opts: seq<Opt>, existing: set<string>): Result<Config, int> {
    match ParseAll(Defaults, opts, existing)
    case Err(code) => Err(code)
    case Ok(c) => Validate(c)
  }

  /** The option globals, updated in place. */
  class Settings {
    var alignmentFileName: string
    var useStdin: bool
    var refFileName: string
    var outputFileName: string
    var uniqueOnly: bool
    var multipleOnly: bool
    var cgOnly: bool
    var convertFrom: char
    var convertTo: char
    var addedChrName: bool
    var removedChrName: bool

    function Current(): Config
      reads this
    {
      Config(alignmentFileName, useStdin, refFileName, outputFileName, uniqueOnly, multipleOnly,
             cgOnly, convertFrom, convertTo, addedChrName, removedChrName)
    }

    constructor ()
      ensures Current() == Defaults
    {
      alignmentFileName, useStdin, refFileName, outputFileName := "", true, "", "";
      uniqueOnly, multipleOnly, cgOnly := false, false, false;
      convertFrom, convertTo := '0', '0';
      addedChrName, removedChrName := false, false;
    }

    /** `parseOption`: one option, stored; a missing file, a malformed base change, help or an unknown option throws. */
    method ParseOption(o: Opt, existing: set<string>) returns (thrown: Option<int>)
      modifies this
      ensures Current() == OptionEffect(old(Current()), o)
      ensures thrown == OptionThrow(o, existing)
    {
      thrown := None;
      match o
      case Alignments(name) =>
        alignmentFileName := name;
        useStdin := name == "-";
        if !useStdin && name !in existing {
          thrown := Some(1);
        }
      case Ref(name) =>
        refFileName := name;
        if name !in existing {
          thrown := Some(1);
        }
      case OutputName(name) =>
        outputFileName := name;
      case BaseChange(arg) =>
        if |arg| != 3 || arg[1] != ',' {
          thrown := Some(1);
        } else {
          convertFrom := ToUpper(arg[0]);
          convertTo := ToUpper(arg[|arg| - 1]);
        }
      case UniqueOnly => uniqueOnly := true;
      case MultipleOnly => multipleOnly := true;
      case CGOnly => cgOnly := true;
      case Threads(_) =>
      case AddedChrName => addedChrName := true;
      case RemovedChrName => removedChrName := true;
      case Help => thrown := Some(0);
      case Unrecognized => thrown := Some(1);
    }

    /** The checks at the end of `parseOptions`. */
    method CheckOptions() returns (thrown: Option<int>)
      modifies this
      ensures match Validate(old(Current()))
        case Ok(c) => thrown.None? && Current() == c
        case Err(code) => thrown == Some(code)
    {
      if refFileName == "" || alignmentFileName == "" {
        return Some(1);
      }
      if cgOnly {
        if convertFrom != 'C' || convertTo != 'T' {
          convertFrom := 'C';
          convertTo := 'T';
        }
      }
      if convertFrom == '0' || convertTo == '0' {
        return Some(1);
      }
      if removedChrName && addedChrName {
        return Some(1);
      }
      if uniqueOnly && multipleOnly {
        return Some(1);
      }
      return None;
    }

    /** `parseOptions`: every option in order, stopping at the first throw, then the checks. */
    method ParseOptions(opts: seq<Opt>, existing: set<string>) returns (thrown: Option<int>)
      modifies this
      ensures old(Current()) == Defaults ==>
        match Options(opts, existing)
        case Ok(c) => thrown.None? && Current() == c
        case Err(code) => thrown == Some(code)
    {
      ghost var start := Current();
      var i := 0;
      while i < |opts|
        invariant 0 <= i <= |opts|
        invariant ParseAll(start, opts[..i], existing) == Ok(Current())
      {
        assert Init(opts[..i + 1]) == opts[..i] && Last(opts[..i + 1]) == opts[i];
        thrown := ParseOption(opts[i], existing);
        if thrown.Some? {
          assert ParseAll(start, opts[..i + 1], existing) == Err(thrown.value);
          PrefixThrowIsFinal(start, opts, i + 1, existing);
          return;
        }
        i := i + 1;
      }
      assert opts[..i] == opts;
      thrown := CheckOptions();
    }
  }

  // ------------------------------------------------------------------
  // Properties

  /** Once an option throws, the options after it are never looked at. */
  lemma {:induction false} PrefixThrowIsFinal(c: Config, opts: seq<Opt>, k: nat, existing: set<string>)
    requires k <= |opts| && ParseAll(c, opts[..k], existing).Err?
    ensures ParseAll(c, opts, existing) == ParseAll(c, opts[..k], existing)
    decreases |opts| - k
  {
    if k < |opts| {
      assert Init(opts[..k + 1]) == opts[..k];
      PrefixThrowIsFinal(c, opts, k + 1, existing);
    } else {
      assert opts[..k] == opts;
    }
  }

  /** `--base-change` is accepted exactly when its argument has the `X,Y` shape, and then sets both bases upper-cased. */
  lemma BaseChangeAccepted(c: Config, arg: string, existing: set<string>)
    ensures OptionThrow(BaseChange(arg), existing).None? <==> |arg| == 3 && arg[1] == ','
    ensures |arg| == 3 && arg[1] == ',' ==>
      OptionEffect(c, BaseChange(arg)) == c.(convertFrom := ToUpper(arg[0]), convertTo := ToUpper(arg[2]))
    ensures !(|arg| == 3 && arg[1] == ',') ==> OptionThrow(BaseChange(arg), existing) == Some(1)
  {
  }

  /** Whatever a lower-case letter is given, the stored base is upper-case. */
  lemma BaseChangeUpperCase(c: Config, x: char, y: char)
    requires 'a' <= x <= 'z' || 'A' <= x <= 'Z'
    requires 'a' <= y <= 'z' || 'A' <= y <= 'Z'
    ensures var c' := OptionEffect(c, BaseChange([x, ',', y]));
      'A' <= c'.convertFrom <= 'Z' && 'A' <= c'.convertTo <= 'Z'
  {
  }

  /**
   * Validation passes exactly when both file names are given, a base change
   * is given or CG-only mode supplies one, and neither exclusive pair is set;
   * what passes has both bases set, C,T in CG-only mode, and otherwise the
   * options as given.
   */
  lemma ValidateSpec(c: Config)
    ensures Validate(c).Ok? <==>
      && c.refFileName != "" && c.alignmentFileName != ""
      && (c.cgOnly || (c.convertFrom != '0' && c.convertTo != '0'))
      && !(c.removedChrName && c.addedChrName)
      && !(c.uniqueOnly && c.multipleOnly)
    ensures Validate(c).Err? ==> Validate(c).error == 1
    ensures Validate(c).Ok? ==>
      var v := Validate(c).value;
      && v.convertFrom != '0' && v.convertTo != '0'
      && (v.cgOnly ==> v.convertFrom == 'C' && v.convertTo == 'T')
      && (!c.cgOnly ==> v == c)
      && v == c.(convertFrom := v.convertFrom, convertTo := v.convertTo)
  {
  }

  /**
   * After the option loop, an alignment name other than "" means standard
   * input exactly when it is "-", and every named file other than standard
   * input exists.
   */
  ghost predicate FilesChecked(c: Config, existing: set<string>) {
    && (c.alignmentFileName != "" ==> c.useStdin == (c.alignmentFileName == "-"))
    && (c.alignmentFileName != "" && c.alignmentFileName != "-" ==> c.alignmentFileName in existing)
    && (c.refFileName != "" ==> c.refFileName in existing)
  }

  lemma {:induction false} ParseAllChecksFiles(opts: seq<Opt>, existing: set<string>)
    requires ParseAll(Defaults, opts, existing).Ok?
    ensures FilesChecked(ParseAll(Defaults, opts, existing).value, existing)
  {
    if opts != [] {
      ParseAllChecksFiles(Init(opts), existing);
      OptionKeepsFilesChecked(ParseAll(Defaults, Init(opts), existing).value, Last(opts), existing);
    }
  }

  lemma OptionKeepsFilesChecked(c: Config, o: Opt, existing: set<string>)
    requires FilesChecked(c, existing) && OptionThrow(o, existing).None?
    ensures FilesChecked(OptionEffect(c, o), existing)
  {
  }

  /**
   * Options that pass `parseOptions` name an existing reference, read the
   * alignments from standard input exactly when the name is "-" (and from an
   * existing file otherwise), and carry a usable base change.
   */
  lemma OptionsAccepted(opts: seq<Opt>, existing: set<string>)
    requires Options(opts, existing).Ok?
    ensures var c := Options(opts, existing).value;
      && c.refFileName in existing
      && c.alignmentFileName != ""
      && c.useStdin == (c.alignmentFileName == "-")
      && (!c.useStdin ==> c.alignmentFileName in existing)
      && c.convertFrom != '0' && c.convertTo != '0'
      && !(c.uniqueOnly && c.multipleOnly) && !(c.addedChrName && c.removedChrName)
  {
    ParseAllChecksFiles(opts, existing);
    ValidateSpec(ParseAll(Defaults, opts, existing).value);
  }

  /** `-h` ends option parsing with exit status 0, whatever follows it. */
  lemma HelpExitsZero(before: seq<Opt>, after: seq<Opt>, existing: set<string>)
    requires ParseAll(Defaults, before, existing).Ok?
    ensures Options(before + [Help] + after, existing) == Err(0)
  {
    var opts := before + [Help] + after;
    assert opts[..|before| + 1] == before + [Help];
    assert Init(before + [Help]) == before;
    PrefixThrowIsFinal(Defaults, opts, |before| + 1, existing);
  }

  /** CG-only mode needs no `--base-change`: with the files named, it runs as C,T. */
  lemma CGOnlySuppliesBaseChange(ref: string, sam: string, existing: set<string>)
    requires ref in existing && sam in existing && ref != "" && sam != "" && sam != "-"
    ensures var c := Options([Ref(ref), Alignments(sam), CGOnly], existing);
      c.Ok? && c.value.convertFrom == 'C' && c.value.convertTo == 'T'
  {
    var opts := [Ref(ref), Alignments(sam), CGOnly];
    var c1 := Defaults.(refFileName := ref);
    var c2 := c1.(alignmentFileName := sam, useStdin := false);
    var c3 := c2.(cgOnly := true);
    assert Init([Ref(ref)]) == [];
    assert ParseAll(Defaults, [Ref(ref)], existing) == Ok(c1);
    assert Init([Ref(ref), Alignments(sam)]) == [Ref(ref)];
    assert ParseAll(Defaults, [Ref(ref), Alignments(sam)], existing) == Ok(c2);
    assert Init(opts) == [Ref(ref), Alignments(sam)];
    assert ParseAll(Defaults, opts, existing) == Ok(c3);
  }
}
