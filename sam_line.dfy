/**
 * Reading RNAME and POS out of one SAM alignment line, as the table
 * builder's `getSAMChromosomePos` does: the line is cut at tab characters;
 * the third field (RNAME, section 1.4 of the SAM format specification) is the
 * reference name and the fourth (POS) is read with `std::stoll`.
 */
module SamLine {
  import opened Common
  import opened CNumbers

  /** `line.find('\t', from)`: the first tab at or after `from`; None stands for `npos`. */
  function FindTab(line: string, from: nat): (r: Option<nat>)
    requires from <= |line|
    ensures r.Some? ==> from <= r.value < |line| && line[r.value] == '\t'
    ensures r.Some? ==> forall k :: from <= k < r.value ==> line[k] != '\t'
    ensures r.None? ==> forall k :: from <= k < |line| ==> line[k] != '\t'
    decreases |line| - from
  {
    if from == |line| then None
    else if line[from] == '\t' then Some(from)
    else FindTab(line, from + 1)
  }

  predicate TabFree(s: string) {
    forall k :: 0 <= k < |s| ==> s[k] != '\t'
  }

  /** The tab-separated fields of `line[from..]`. */
  function FieldsFrom(line: string, from: nat): seq<string>
    requires from <= |line|
    decreases |line| - from
  {
    match FindTab(line, from)
    case None => [line[from..]]
    case Some(e) => [line[from..e]] + FieldsFrom(line, e + 1)
  }

  /** The tab-separated fields of a line: one more than it has tabs. */
  function Fields(line: string): seq<string> {
    FieldsFrom(line, 0)
  }

  /** Fields written back with a tab between each two. */
  function JoinTabs(fields: seq<string>): string
    requires |fields| > 0
  {
    if |fields| == 1 then fields[0] else fields[0] + "\t" + JoinTabs(fields[1..])
  }

  /** A tab at `e` ends the field that starts at `from`. */
  lemma FieldsFromTab(line: string, from: nat, e: nat)
    requires from <= |line| && FindTab(line, from) == Some(e)
    ensures FieldsFrom(line, from) == [line[from..e]] + FieldsFrom(line, e + 1)
  {
  }

  /** Cutting a line at its tabs gives a non-empty list of tab-free fields that join back to the line. */
  lemma {:induction false} FieldsFromJoin(line: string, from: nat)
    requires from <= |line|
    ensures |FieldsFrom(line, from)| > 0
    ensures forall i :: 0 <= i < |FieldsFrom(line, from)| ==> TabFree(FieldsFrom(line, from)[i])
    ensures JoinTabs(FieldsFrom(line, from)) == line[from..]
    decreases |line| - from
  {
    match FindTab(line, from)
    case None =>
    case Some(e) =>
      FieldsFromJoin(line, e + 1);
      var rest := FieldsFrom(line, e + 1);
      assert FieldsFrom(line, from) == [line[from..e]] + rest;
      assert ([line[from..e]] + rest)[1..] == rest;
      assert line[from..] == line[from..e] + "\t" + line[e + 1..];
  }

  lemma FieldsJoin(line: string)
    ensures |Fields(line)| > 0 && JoinTabs(Fields(line)) == line
    ensures forall i :: 0 <= i < |Fields(line)| ==> TabFree(Fields(line)[i])
  {
    FieldsFromJoin(line, 0);
    assert line[0..] == line;
  }

  /** Joining tab-free fields and cutting again gives the same fields back. */
  lemma JoinFields(fields: seq<string>)
    requires |fields| > 0 && forall i :: 0 <= i < |fields| ==> TabFree(fields[i])
    ensures Fields(JoinTabs(fields)) == fields
  {
    var line := JoinTabs(fields);
    FieldsJoin(line);
    JoinTabsInjective(Fields(line), fields);
  }

  /** Tab-free fields are determined by their join: a field ends where the first tab is. */
  lemma {:induction false} JoinTabsInjective(a: seq<string>, b: seq<string>)
    requires |a| > 0 && forall i :: 0 <= i < |a| ==> TabFree(a[i])
    requires |b| > 0 && forall i :: 0 <= i < |b| ==> TabFree(b[i])
    requires JoinTabs(a) == JoinTabs(b)
    ensures a == b
    decreases |a|
  {
    var s := JoinTabs(a);
    var a0, b0 := a[0], b[0];
    JoinTabsShape(a);
    JoinTabsShape(b);
    assert |a0| == |b0|;
    if |a| > 1 && |b| > 1 {
      JoinTabsInjective(a[1..], b[1..]);
      assert a == [a0] + a[1..] && b == [b0] + b[1..];
    }
  }

  /** The join starts with the first field, followed by the end of the line or a tab and the join of the rest. */
  lemma JoinTabsShape(x: seq<string>)
    requires |x| > 0
    ensures |x[0]| <= |JoinTabs(x)| && JoinTabs(x)[..|x[0]|] == x[0]
    ensures |x| == 1 <==> |JoinTabs(x)| == |x[0]|
    ensures |x| > 1 ==> JoinTabs(x)[|x[0]|] == '\t' && JoinTabs(x)[|x[0]| + 1..] == JoinTabs(x[1..])
  {
    if |x| > 1 {
      var s := JoinTabs(x);
      assert s == x[0] + "\t" + JoinTabs(x[1..]);
      assert s[..|x[0]|] == x[0];
      assert s[|x[0]| + 1..] == JoinTabs(x[1..]);
    }
  }

  /** When the fields from `start` on are the fields from index `count` on, a tab at `e` ends field `count`. */
  lemma FieldAt(line: string, start: nat, count: nat, e: nat)
    requires start <= |line| && count < |Fields(line)|
    requires FieldsFrom(line, start) == Fields(line)[count..]
    requires FindTab(line, start) == Some(e)
    ensures count + 1 < |Fields(line)|
    ensures Fields(line)[count] == line[start..e] && Fields(line)[count + 1..] == FieldsFrom(line, e + 1)
  {
    var f := Fields(line);
    FieldsFromTab(line, start, e);
    FieldsFromJoin(line, e + 1);
    assert f[count..][0] == f[count];
    assert f[count + 1..] == f[count..][1..];
  }

  /** When no tab follows `start`, field `count` is the last one. */
  lemma LastField(line: string, start: nat, count: nat)
    requires start <= |line| && count < |Fields(line)|
    requires FieldsFrom(line, start) == Fields(line)[count..]
    requires FindTab(line, start).None?
    ensures |Fields(line)| == count + 1
  {
    assert FieldsFrom(line, start) == [line[start..]];
  }

  /** The outcome of `getSAMChromosomePos`: its return value, or the exception `stoll` throws. */
  datatype PosScan = Returned(located: bool) | StollThrew

  /**
   * `getSAMChromosomePos(line, chr, pos)`. It walks the tabs; at the end of
   * the third field it stores the field in `chr`; at the end of the fourth it
   * parses the field into `pos` and returns whether `chr` is not `*`. Without a
   * tab after the fourth field it returns false, having updated `chr` if the
   * third field was complete.
   */
  method GetSAMChromosomePos(line: string, chr: string, pos: int) returns (r: PosScan, chr': string, pos': int)
    ensures var f := Fields(line);
      && (|f| <= 3 ==> r == Returned(false) && chr' == chr && pos' == pos)
      && (|f| == 4 ==> r == Returned(false) && chr' == f[2] && pos' == pos)
      && (|f| >= 5 && Stoll(f[3]).None? ==> r == StollThrew)
      && (|f| >= 5 && Stoll(f[3]).Some? ==>
            r == Returned(f[2] != "*") && chr' == f[2] && pos' == Stoll(f[3]).value)
  {
    chr', pos' := chr, pos;
    var start := 0;
    var count := 0;
    while true
      invariant 0 <= start <= |line| && 0 <= count <= 3
      invariant |Fields(line)| > count && FieldsFrom(line, start) == Fields(line)[count..]
      invariant count <= 2 ==> chr' == chr
      invariant count == 3 ==> chr' == Fields(line)[2]
      invariant pos' == pos
      decreases |line| - start
    {
      var end := FindTab(line, start);
      if end.None? {
        break;
      }
      var e := end.value;
      FieldAt(line, start, count, e);
      if count == 2 {
        chr' := line[start..e];
      } else if count == 3 {
        var p := Stoll(line[start..e]);
        if p.None? {
          return StollThrew, chr', pos';
        }
        pos' := p.value;
        if chr' == "*" {
          return Returned(false), chr', pos';
        }
        return Returned(true), chr', pos';
      }
      start := e + 1;
      count := count + 1;
    }
    LastField(line, start, count);
    return Returned(false), chr', pos';
  }

  /**
   * A line whose RNAME is a tab-free name other than `*` and whose POS is a
   * printed number, followed by at least one more field, is located at that
   * name and number whatever the other fields hold.
   */
  lemma LocatedLine(qname: string, flag: string, rname: string, p: nat, rest: seq<string>, chr: string, pos: int)
    requires TabFree(qname) && TabFree(flag) && TabFree(rname) && rname != "*"
    requires p <= INT64_MAX && |rest| > 0 && forall i :: 0 <= i < |rest| ==> TabFree(rest[i])
    ensures var f := Fields(JoinTabs([qname, flag, rname, NatToString(p)] + rest));
      |f| >= 5 && f[2] == rname && Stoll(f[3]) == Some(p)
  {
    var fields := [qname, flag, rname, NatToString(p)] + rest;
    forall i | 0 <= i < |fields| ensures TabFree(fields[i]) {
      if i == 3 {
        assert forall k :: 0 <= k < |NatToString(p)| ==> IsDigit(NatToString(p)[k]);
      }
    }
    JoinFields(fields);
    StollNatToString(p);
  }
}
