/**
 * What merge_split_bam computes, stated on values: the per-reference buckets,
 * the per-reference counts, the round-robin deal of references onto output
 * files, and the theorem that the output files partition the mapped records.
 */
module MergeSplitSpec {
  import opened Common

  /** One reference sequence of a header: `target_name[i]` and `target_len[i]`. */
  datatype Target = Target(name: string, length: nat)

  /** A reference dictionary, in header order. */
  type Header = seq<Target>

  /**
   * An alignment record: its reference id (`core.tid`, negative when
   * unmapped), its 0-based position (`core.pos`) and an identity standing
   * for the opaque record payload that is copied and written unchanged.
   */
  datatype Rec = Rec(tid: int, pos: int, id: nat)

  /** One entry of `chr_stats`: a reference id and the number of records in its bucket. */
  datatype ChrStat = ChrStat(tid: int, readCount: nat)

  ghost predicate Distinct<T>(s: seq<T>) {
    forall i, j :: 0 <= i < j < |s| ==> s[i] != s[j]
  }

  // ------------------------------------------------------------------
  // Headers

  /** Same number of targets, and at every index the same name and length. */
  predicate SameDictionary(a: Header, b: Header) {
    |a| == |b| && forall i :: 0 <= i < |a| ==> a[i].name == b[i].name && a[i].length == b[i].length
  }

  /** Compatibility is equality of dictionaries, hence reflexive, symmetric and transitive. */
  lemma SameDictionaryIsEquality(a: Header, b: Header)
    ensures SameDictionary(a, b) <==> a == b
  {
    if SameDictionary(a, b) {
      assert forall i :: 0 <= i < |a| ==> a[i] == b[i];
    }
  }

  // ------------------------------------------------------------------
  // Loading and bucketing

  /** A record is kept when `0 <= tid < n_targets`. */
  predicate IsMapped(r: Rec, nTargets: nat) {
    0 <= r.tid < nTargets
  }

  /** The records of `recs` that are mapped, in read order. */
  function MappedRecords(recs: seq<Rec>, nTargets: nat): (m: seq<Rec>)
    ensures forall r :: r in m ==> IsMapped(r, nTargets)
  {
    if recs == [] then []
    else MappedRecords(Init(recs), nTargets) + (if IsMapped(Last(recs), nTargets) then [Last(recs)] else [])
  }

  /** The records of `recs` on reference `t`, in read order: `chr_vec[t]` after loading. */
  function Bucket(recs: seq<Rec>, t: int): (b: seq<Rec>)
    ensures forall r :: r in b ==> r.tid == t
    ensures |b| <= |recs|
  {
    if recs == [] then []
    else Bucket(Init(recs), t) + (if Last(recs).tid == t then [Last(recs)] else [])
  }

  /** `chr_vec` after loading `recs`: one bucket per reference id. */
  function Buckets(recs: seq<Rec>, nTargets: nat): (chr: seq<seq<Rec>>)
    ensures |chr| == nTargets
  {
    seq(nTargets, t requires 0 <= t < nTargets => Bucket(recs, t))
  }

  /** Bucketing distributes over reading one file after another. */
  lemma {:induction false} BucketAppend(a: seq<Rec>, b: seq<Rec>, t: int)
    ensures Bucket(a + b, t) == Bucket(a, t) + Bucket(b, t)
    decreases |b|
  {
    if b != [] {
      assert Init(a + b) == a + Init(b);
      assert Last(a + b) == Last(b);
      BucketAppend(a, Init(b), t);
    } else {
      assert a + b == a;
    }
  }

  /** A record occurs in bucket `t` exactly as often as in the input when its tid is `t`, else never. */
  lemma {:induction false} BucketCount(recs: seq<Rec>, t: int, x: Rec)
    ensures multiset(Bucket(recs, t))[x] == if x.tid == t then multiset(recs)[x] else 0
  {
    if recs != [] {
      BucketCount(Init(recs), t, x);
      InitLast(recs);
    }
  }

  /** A record occurs among the mapped records exactly as often as in the input when mapped, else never. */
  lemma {:induction false} MappedCount(recs: seq<Rec>, nTargets: nat, x: Rec)
    ensures multiset(MappedRecords(recs, nTargets))[x] == if IsMapped(x, nTargets) then multiset(recs)[x] else 0
  {
    if recs != [] {
      MappedCount(Init(recs), nTargets, x);
      InitLast(recs);
    }
  }

  /** Unmapped records are in no bucket. */
  lemma UnmappedInNoBucket(recs: seq<Rec>, nTargets: nat, x: Rec)
    requires !IsMapped(x, nTargets)
    ensures forall t :: 0 <= t < nTargets ==> x !in Buckets(recs, nTargets)[t]
  {
  }

  // ------------------------------------------------------------------
  // Concatenating the buckets of a list of reference ids

  /** Every record stored for reference `t` has tid `t`. */
  predicate Homogeneous(chr: seq<seq<Rec>>) {
    forall t, r :: 0 <= t < |chr| && r in chr[t] ==> r.tid == t
  }

  predicate ValidTids(tids: seq<int>, nTargets: nat) {
    forall k :: 0 <= k < |tids| ==> 0 <= tids[k] < nTargets
  }

  /** The buckets of `tids`, one after the other, in the order of `tids`. */
  function Gather(chr: seq<seq<Rec>>, tids: seq<int>): seq<Rec>
    requires ValidTids(tids, |chr|)
  {
    if tids == [] then [] else Gather(chr, Init(tids)) + chr[Last(tids)]
  }

  /** Gather only looks at the buckets it names. */
  lemma {:induction false} GatherFrame(a: seq<seq<Rec>>, b: seq<seq<Rec>>, tids: seq<int>)
    requires |a| == |b| && ValidTids(tids, |a|)
    requires forall k :: 0 <= k < |tids| ==> a[tids[k]] == b[tids[k]]
    ensures Gather(a, tids) == Gather(b, tids)
  {
    if tids != [] {
      GatherFrame(a, b, Init(tids));
    }
  }

  /**
   * Over distinct reference ids, a record occurs in the concatenation as
   * often as in its own bucket when its tid is listed, and never otherwise.
   */
  lemma {:induction false} GatherCount(chr: seq<seq<Rec>>, tids: seq<int>, x: Rec)
    requires ValidTids(tids, |chr|) && Homogeneous(chr) && Distinct(tids)
    ensures multiset(Gather(chr, tids))[x] == if x.tid in tids then multiset(chr[x.tid])[x] else 0
  {
    if tids != [] {
      var init, t := Init(tids), Last(tids);
      GatherCount(chr, init, x);
      InitLast(tids);
      if x.tid == t {
        assert x.tid !in init;
      } else {
        assert x !in chr[t];
      }
    }
  }

  /** Gathering two lists of ids one after the other. */
  lemma {:induction false} GatherAppend(chr: seq<seq<Rec>>, a: seq<int>, b: seq<int>)
    requires ValidTids(a, |chr|) && ValidTids(b, |chr|)
    ensures ValidTids(a + b, |chr|) && Gather(chr, a + b) == Gather(chr, a) + Gather(chr, b)
    decreases |b|
  {
    if b != [] {
      assert Init(a + b) == a + Init(b);
      GatherAppend(chr, a, Init(b));
    } else {
      assert a + b == a;
    }
  }

  /** No bucket listed holds a record of `t`, so neither does their concatenation. */
  lemma {:induction false} GatherBucketAbsent(chr: seq<seq<Rec>>, tids: seq<int>, t: int)
    requires ValidTids(tids, |chr|)
    requires forall k :: 0 <= k < |tids| ==> Bucket(chr[tids[k]], t) == []
    ensures Bucket(Gather(chr, tids), t) == []
  {
    if tids != [] {
      var init := Init(tids);
      assert forall k :: 0 <= k < |init| ==> init[k] == tids[k];
      GatherBucketAbsent(chr, init, t);
      BucketAppend(Gather(chr, init), chr[Last(tids)], t);
    }
  }

  /** Only the bucket at index `i` holds records of `t`, and all its records are of `t`. */
  lemma GatherBucketAt(chr: seq<seq<Rec>>, tids: seq<int>, i: nat, t: int)
    requires ValidTids(tids, |chr|) && i < |tids| && tids[i] == t
    requires forall k :: 0 <= k < |tids| && k != i ==> Bucket(chr[tids[k]], t) == []
    requires Bucket(chr[t], t) == chr[t]
    ensures Bucket(Gather(chr, tids), t) == chr[t]
  {
    var p, q := tids[..i], tids[i + 1..];
    assert tids == p + [t] + q;
    assert forall k :: 0 <= k < |p| ==> p[k] == tids[k];
    assert forall k :: 0 <= k < |q| ==> q[k] == tids[i + 1 + k];
    GatherBucketAbsent(chr, p, t);
    GatherBucketAbsent(chr, q, t);
    GatherAppend(chr, p, [t]);
    GatherAppend(chr, p + [t], q);
    assert Gather(chr, [t]) == chr[t] by {
      assert Init([t]) == [];
    }
    BucketAppend(Gather(chr, p), chr[t], t);
    BucketAppend(Gather(chr, p) + chr[t], Gather(chr, q), t);
  }

  /** In homogeneous buckets, the records of `t` in a listed bucket are all of it or none. */
  lemma BucketsOfListed(chr: seq<seq<Rec>>, tids: seq<int>, t: int)
    requires ValidTids(tids, |chr|) && Homogeneous(chr)
    ensures forall k :: 0 <= k < |tids| ==> Bucket(chr[tids[k]], t) == if t == tids[k] then chr[tids[k]] else []
  {
    forall k | 0 <= k < |tids|
      ensures Bucket(chr[tids[k]], t) == if t == tids[k] then chr[tids[k]] else []
    {
      var u := tids[k];
      assert forall i :: 0 <= i < |chr[u]| ==> chr[u][i] in chr[u];
      BucketOfHomogeneous(chr[u], u, t);
    }
  }

  /**
   * Over distinct reference ids, the records of reference `t` in the
   * concatenation are exactly its bucket when `t` is listed, else none.
   */
  lemma GatherBucket(chr: seq<seq<Rec>>, tids: seq<int>, t: int)
    requires ValidTids(tids, |chr|) && Homogeneous(chr) && Distinct(tids)
    ensures Bucket(Gather(chr, tids), t) == if t in tids then chr[t] else []
  {
    BucketsOfListed(chr, tids, t);
    if t in tids {
      var i :| 0 <= i < |tids| && tids[i] == t;
      forall k | 0 <= k < |tids| && k != i
        ensures Bucket(chr[tids[k]], t) == []
      {
        assert tids[k] != tids[i];
      }
      GatherBucketAt(chr, tids, i, t);
    } else {
      GatherBucketAbsent(chr, tids, t);
    }
  }

  /** The bucket of `t` in records that all have tid `u`. */
  lemma {:induction false} BucketOfHomogeneous(recs: seq<Rec>, u: int, t: int)
    requires forall i :: 0 <= i < |recs| ==> recs[i].tid == u
    ensures Bucket(recs, t) == if t == u then recs else []
  {
    if recs != [] {
      var init := Init(recs);
      assert forall i :: 0 <= i < |init| ==> init[i] == recs[i];
      BucketOfHomogeneous(init, u, t);
      InitLast(recs);
    }
  }

  /** The ids 0 .. n-1 in order. */
  function Range(n: nat): (r: seq<int>)
    ensures |r| == n && forall k :: 0 <= k < n ==> r[k] == k
  {
    seq(n, k => k)
  }

  /** Bucketing loses and invents nothing: the buckets hold exactly the mapped records. */
  lemma BucketsPartitionMapped(recs: seq<Rec>, nTargets: nat)
    ensures ValidTids(Range(nTargets), nTargets)
    ensures multiset(Gather(Buckets(recs, nTargets), Range(nTargets))) == multiset(MappedRecords(recs, nTargets))
  {
    var chr := Buckets(recs, nTargets);
    var all := Range(nTargets);
    assert Homogeneous(chr);
    assert Distinct(all);
    forall x
      ensures multiset(Gather(chr, all))[x] == multiset(MappedRecords(recs, nTargets))[x]
    {
      GatherCount(chr, all, x);
      MappedCount(recs, nTargets, x);
      if 0 <= x.tid < nTargets {
        assert all[x.tid] == x.tid;
        BucketCount(recs, x.tid, x);
      }
    }
  }

  // ------------------------------------------------------------------
  // Per-reference counts

  function TidsOf(stats: seq<ChrStat>): (tids: seq<int>)
    ensures |tids| == |stats| && forall k :: 0 <= k < |stats| ==> tids[k] == stats[k].tid
  {
    seq(|stats|, k requires 0 <= k < |stats| => stats[k].tid)
  }

  /**
   * `chr_stats` describes the buckets `chr`: exactly the non-empty buckets,
   * each once, each with its number of records.
   */
  ghost predicate StatsFor(chr: seq<seq<Rec>>, stats: seq<ChrStat>) {
    && (forall k :: 0 <= k < |stats| ==>
          0 <= stats[k].tid < |chr| && stats[k].readCount == |chr[stats[k].tid]| > 0)
    && (forall t :: 0 <= t < |chr| && chr[t] != [] ==> t in TidsOf(stats))
    && Distinct(TidsOf(stats))
  }

  /** Sorted by `reads` (here `readCount`), largest first; equal counts in no particular order. */
  predicate ReadsNonIncreasing(stats: seq<ChrStat>) {
    forall i, j :: 0 <= i < j < |stats| ==> stats[i].readCount >= stats[j].readCount
  }

  /** A value occurs at most once in a sequence without repetitions. */
  lemma {:induction false} DistinctCount<T>(s: seq<T>, x: T)
    requires Distinct(s)
    ensures multiset(s)[x] <= 1
  {
    if s != [] {
      DistinctCount(Init(s), x);
      InitLast(s);
      if Last(s) == x {
        assert x !in Init(s);
      }
    }
  }

  /** A permutation of a sequence without repetitions has none either. */
  lemma DistinctPermutation<T>(a: seq<T>, b: seq<T>)
    requires multiset(a) == multiset(b) && Distinct(a)
    ensures Distinct(b)
  {
    forall i, j | 0 <= i < j < |b|
      ensures b[i] != b[j]
    {
      if b[i] == b[j] {
        assert b == b[..j] + b[j..];
        assert b[i] in b[..j] && b[j] in b[j..];
        assert multiset(b)[b[i]] == multiset(b[..j])[b[i]] + multiset(b[j..])[b[i]] >= 2;
        DistinctCount(a, b[i]);
      }
    }
  }

  /** Reordering `chr_stats` keeps it a description of the buckets. */
  lemma StatsForPermutation(chr: seq<seq<Rec>>, a: seq<ChrStat>, b: seq<ChrStat>)
    requires StatsFor(chr, a) && multiset(a) == multiset(b)
    ensures StatsFor(chr, b)
  {
    forall k | 0 <= k < |b|
      ensures 0 <= b[k].tid < |chr| && b[k].readCount == |chr[b[k].tid]| > 0
    {
      assert b[k] in multiset(a);
    }
    forall t | 0 <= t < |chr| && chr[t] != []
      ensures t in TidsOf(b)
    {
      var k :| 0 <= k < |a| && TidsOf(a)[k] == t;
      assert a[k] in multiset(b);
      var j :| 0 <= j < |b| && b[j] == a[k];
      assert TidsOf(b)[j] == t;
    }
    assert Distinct(a) by {
      forall i, j | 0 <= i < j < |a| ensures a[i] != a[j] {
        assert TidsOf(a)[i] != TidsOf(a)[j];
      }
    }
    DistinctPermutation(a, b);
    forall i, j | 0 <= i < j < |b|
      ensures TidsOf(b)[i] != TidsOf(b)[j]
    {
      assert b[i] != b[j];
      assert b[i].readCount == |chr[b[i].tid]| && b[j].readCount == |chr[b[j].tid]|;
    }
  }

  // ------------------------------------------------------------------
  // Round-robin assignment of references to output files

  /** `bucket_chrs[b]`: the ids at the indices `i` with `i % n == b`, in order. */
  function Dealt(tids: seq<int>, n: nat, b: nat): seq<int>
    requires n > 0
  {
    if tids == [] then []
    else Dealt(Init(tids), n, b) + (if (|tids| - 1) % n == b then [Last(tids)] else [])
  }

  /** An id is dealt to output `b` exactly when it stands at an index congruent to `b`. */
  lemma {:induction false} DealtMembers(tids: seq<int>, n: nat, b: nat, x: int)
    requires n > 0
    ensures x in Dealt(tids, n, b) <==> exists i :: 0 <= i < |tids| && tids[i] == x && i % n == b
  {
    if tids != [] {
      var init := Init(tids);
      DealtMembers(init, n, b, x);
      if exists i :: 0 <= i < |tids| && tids[i] == x && i % n == b {
        var i :| 0 <= i < |tids| && tids[i] == x && i % n == b;
        if i < |init| {
          assert init[i] == x;
        }
      }
    }
  }

  /**
   * Round robin: the id at index `i` goes to output `i % n`, and to no other
   * output when the ids are distinct.
   */
  lemma DealtExactlyOnce(tids: seq<int>, n: nat, i: nat, b: nat)
    requires n > 0 && i < |tids| && Distinct(tids)
    ensures tids[i] in Dealt(tids, n, b) <==> b == i % n
  {
    DealtMembers(tids, n, b, tids[i]);
  }

  /** Every output gets distinct ids when the ids dealt are distinct. */
  lemma {:induction false} DealtDistinct(tids: seq<int>, n: nat, b: nat)
    requires n > 0 && Distinct(tids)
    ensures Distinct(Dealt(tids, n, b))
  {
    if tids != [] {
      var init := Init(tids);
      DealtDistinct(init, n, b);
      DealtMembers(init, n, b, Last(tids));
    }
  }

  /**
   * Within an output the ids keep their order: output `b` holds the ids at
   * indices `b, b + n, b + 2n, ...`, all of them that exist.
   */
  lemma {:induction false} DealtAt(tids: seq<int>, n: nat, b: nat)
    requires 0 <= b < n
    ensures var d := Dealt(tids, n, b);
      && (forall k :: 0 <= k < |d| ==> b + k * n < |tids| && d[k] == tids[b + k * n])
      && b + |d| * n >= |tids|
  {
    if tids != [] {
      var init := Init(tids);
      var d0 := Dealt(init, n, b);
      DealtAt(init, n, b);
      var m := |d0|;
      NextWindow(|init|, b, m, n);
      ResidueWindow(|init|, b, m, n);
      var d := Dealt(tids, n, b);
      forall k | 0 <= k < |d|
        ensures b + k * n < |tids| && d[k] == tids[b + k * n]
      {
        if k < m {
          assert d[k] == d0[k];
        }
      }
    }
  }

  /** The slot after the last one dealt to `b` lies in the next `n` indices. */
  lemma NextWindow(len: nat, b: nat, m: nat, n: nat)
    requires 0 <= b < n && len <= b + m * n
    requires m > 0 ==> b + (m - 1) * n < len
    ensures b + m * n < len + n && b + (m + 1) * n == b + m * n + n
  {
    if m > 0 {
      assert (m - 1) * n + n == m * n;
    }
    assert (m + 1) * n == m * n + n;
  }

  /** Two numbers less than `n` apart with the same residue are equal. */
  lemma ResidueWindow(len: nat, b: nat, m: nat, n: nat)
    requires 0 <= b < n && len <= b + m * n < len + n
    ensures len % n == b <==> b + m * n == len
  {
    var q, r := len / n, len % n;
    var d := m - q;
    assert len == q * n + r;
    assert m * n - q * n == d * n;
    assert 0 - n < d * n < 2 * n;
    MulBounds(d, n);
    if d == 1 {
      assert b < r;
    }
  }

  /** A multiple of `n` strictly between `-n` and `2n` is `0` or `n`. */
  lemma MulBounds(d: int, n: int)
    requires n > 0 && -n < d * n < 2 * n
    ensures d == 0 || d == 1
  {
  }

  /** No reference id is listed twice, within one output or across outputs. */
  ghost predicate DisjointAssignment(bucketChrs: seq<seq<int>>) {
    forall b1, i, b2, j ::
      0 <= b1 < |bucketChrs| && 0 <= b2 < |bucketChrs| &&
      0 <= i < |bucketChrs[b1]| && 0 <= j < |bucketChrs[b2]| && (b1 != b2 || i != j)
      ==> bucketChrs[b1][i] != bucketChrs[b2][j]
  }

  /** Dealing distinct ids gives every output its own ids: no two writers share a reference. */
  lemma DealtIsDisjoint(tids: seq<int>, n: nat, bucketChrs: seq<seq<int>>)
    requires n > 0 && Distinct(tids) && |bucketChrs| == n
    requires forall b :: 0 <= b < n ==> bucketChrs[b] == Dealt(tids, n, b)
    ensures DisjointAssignment(bucketChrs)
  {
    forall b1, i, b2, j |
      0 <= b1 < n && 0 <= b2 < n &&
      0 <= i < |bucketChrs[b1]| && 0 <= j < |bucketChrs[b2]| && (b1 != b2 || i != j)
      ensures bucketChrs[b1][i] != bucketChrs[b2][j]
    {
      if b1 == b2 {
        DealtDistinct(tids, n, b1);
      } else {
        var x := bucketChrs[b1][i];
        assert x in Dealt(tids, n, b1);
        DealtMembers(tids, n, b1, x);
        var k :| 0 <= k < |tids| && tids[k] == x && k % n == b1;
        DealtExactlyOnce(tids, n, k, b2);
      }
    }
  }

  /** With a single output, every id goes to output 0, in order. */
  lemma {:induction false} DealtSingleOutput(tids: seq<int>)
    ensures Dealt(tids, 1, 0) == tids
  {
    if tids != [] {
      DealtSingleOutput(Init(tids));
      InitLast(tids);
    }
  }

  /** Three references ranked A, B, C and two outputs: A and C go to output 0, B to output 1. */
  lemma DealExample(a: int, b: int, c: int)
    ensures Dealt([a, b, c], 2, 0) == [a, c] && Dealt([a, b, c], 2, 1) == [b]
  {
    assert Init([a, b, c]) == [a, b] && Init([a, b]) == [a] && Init([a]) == [];
    assert Dealt([a], 2, 0) == [a] && Dealt([a], 2, 1) == [];
    assert Dealt([a, b], 2, 0) == [a] && Dealt([a, b], 2, 1) == [b];
  }

  // ------------------------------------------------------------------
  // The written outputs

  predicate SortedByPos(recs: seq<Rec>) {
    forall i, j :: 0 <= i < j < |recs| ==> recs[i].pos <= recs[j].pos
  }

  /** All the output files' records, output 0 first. */
  function Flatten(outs: seq<seq<Rec>>): seq<Rec> {
    if outs == [] then [] else Flatten(Init(outs)) + Last(outs)
  }

  /** If a record can occur only in output `b0`, the concatenation holds it as often as that output. */
  lemma {:induction false} FlattenCount(outs: seq<seq<Rec>>, x: Rec, b0: int)
    requires forall b :: 0 <= b < |outs| && b != b0 ==> multiset(outs[b])[x] == 0
    ensures multiset(Flatten(outs))[x] == if 0 <= b0 < |outs| then multiset(outs[b0])[x] else 0
  {
    if outs != [] {
      var init := Init(outs);
      assert forall b :: 0 <= b < |init| ==> init[b] == outs[b];
      FlattenCount(init, x, b0);
      assert multiset(Flatten(outs)) == multiset(Flatten(init)) + multiset(Last(outs));
    }
  }

  /**
   * The buckets after the write phase: every bucket is a permutation of the
   * loaded one, sorted by position.
   */
  predicate SortedBuckets(sorted: seq<seq<Rec>>, chr: seq<seq<Rec>>) {
    |sorted| == |chr| &&
    forall t :: 0 <= t < |chr| ==> multiset(sorted[t]) == multiset(chr[t]) && SortedByPos(sorted[t])
  }

  /** The records output `b` receives: its references' sorted buckets, in dealing order. */
  function OutputRecords(sorted: seq<seq<Rec>>, stats: seq<ChrStat>, n: nat, b: nat): seq<Rec>
    requires n > 0 && ValidTids(TidsOf(stats), |sorted|)
  {
    DealtValid(TidsOf(stats), n, b, |sorted|);
    Gather(sorted, Dealt(TidsOf(stats), n, b))
  }

  /** Every output gets valid ids when the ids dealt are valid. */
  lemma {:induction false} DealtValid(tids: seq<int>, n: nat, b: nat, nTargets: nat)
    requires n > 0 && ValidTids(tids, nTargets)
    ensures ValidTids(Dealt(tids, n, b), nTargets)
  {
    if tids != [] {
      DealtValid(Init(tids), n, b, nTargets);
    }
  }

  lemma SortedBucketsHomogeneous(recs: seq<Rec>, nTargets: nat, sorted: seq<seq<Rec>>)
    requires SortedBuckets(sorted, Buckets(recs, nTargets))
    ensures Homogeneous(sorted)
  {
    forall t, r | 0 <= t < |sorted| && r in sorted[t]
      ensures r.tid == t
    {
      assert r in multiset(sorted[t]);
      assert r in Bucket(recs, t);
    }
  }

  /**
   * The outputs partition the mapped records: each mapped record occurs in
   * the outputs taken together exactly as often as in the inputs, and
   * unmapped records occur nowhere.
   */
  lemma OutputsPartitionMapped(recs: seq<Rec>, nTargets: nat, stats: seq<ChrStat>, sorted: seq<seq<Rec>>, n: nat)
    requires n > 0
    requires StatsFor(Buckets(recs, nTargets), stats)
    requires SortedBuckets(sorted, Buckets(recs, nTargets))
    ensures multiset(Flatten(seq(n, b requires 0 <= b < n => OutputRecords(sorted, stats, n, b))))
         == multiset(MappedRecords(recs, nTargets))
  {
    var chr := Buckets(recs, nTargets);
    var tids := TidsOf(stats);
    var outs := seq(n, b requires 0 <= b < n => OutputRecords(sorted, stats, n, b));
    SortedBucketsHomogeneous(recs, nTargets, sorted);
    forall b | 0 <= b < n
      ensures Distinct(Dealt(tids, n, b)) && ValidTids(Dealt(tids, n, b), nTargets)
    {
      DealtDistinct(tids, n, b);
      DealtValid(tids, n, b, nTargets);
    }
    assert forall b :: 0 <= b < n ==> outs[b] == Gather(sorted, Dealt(tids, n, b));
    forall x
      ensures multiset(Flatten(outs))[x] == multiset(MappedRecords(recs, nTargets))[x]
    {
      OutputsCount(recs, nTargets, stats, sorted, n, outs, x);
    }
  }

  /** One record's count in all outputs together, for `OutputsPartitionMapped`. */
  lemma OutputsCount(recs: seq<Rec>, nTargets: nat, stats: seq<ChrStat>, sorted: seq<seq<Rec>>, n: nat,
                     outs: seq<seq<Rec>>, x: Rec)
    requires n > 0 && |outs| == n
    requires StatsFor(Buckets(recs, nTargets), stats)
    requires SortedBuckets(sorted, Buckets(recs, nTargets)) && Homogeneous(sorted)
    requires forall b :: 0 <= b < n ==> Distinct(Dealt(TidsOf(stats), n, b)) && ValidTids(Dealt(TidsOf(stats), n, b), nTargets)
    requires forall b :: 0 <= b < n ==> outs[b] == Gather(sorted, Dealt(TidsOf(stats), n, b))
    ensures multiset(Flatten(outs))[x] == multiset(MappedRecords(recs, nTargets))[x]
  {
    var tids := TidsOf(stats);
    MappedCount(recs, nTargets, x);
    forall b | 0 <= b < n
      ensures multiset(outs[b])[x] == if x.tid in Dealt(tids, n, b) then multiset(sorted[x.tid])[x] else 0
    {
      GatherCount(sorted, Dealt(tids, n, b), x);
    }
    if x.tid in tids {
      var i :| 0 <= i < |tids| && tids[i] == x.tid;
      forall b | 0 <= b < n
        ensures x.tid in Dealt(tids, n, b) <==> b == i % n
      {
        DealtExactlyOnce(tids, n, i, b);
      }
      FlattenCount(outs, x, i % n);
      BucketCount(recs, x.tid, x);
    } else {
      FlattenCount(outs, x, -1);
      if IsMapped(x, nTargets) {
        assert Buckets(recs, nTargets)[x.tid] == [];
        BucketCount(recs, x.tid, x);
      }
    }
  }

  /**
   * Within output `b`, the records of reference `t` are exactly its sorted
   * bucket when `t` was dealt to `b`, and there are none otherwise; so they
   * appear in non-decreasing position order and no reference is split across
   * two outputs.
   */
  lemma OutputBucket(recs: seq<Rec>, nTargets: nat, stats: seq<ChrStat>, sorted: seq<seq<Rec>>, n: nat, b: nat, t: int)
    requires 0 <= b < n
    requires StatsFor(Buckets(recs, nTargets), stats)
    requires SortedBuckets(sorted, Buckets(recs, nTargets))
    ensures ValidTids(Dealt(TidsOf(stats), n, b), nTargets)
    ensures Bucket(OutputRecords(sorted, stats, n, b), t)
         == if t in Dealt(TidsOf(stats), n, b) then sorted[t] else []
    ensures SortedByPos(Bucket(OutputRecords(sorted, stats, n, b), t))
  {
    SortedBucketsHomogeneous(recs, nTargets, sorted);
    DealtDistinct(TidsOf(stats), n, b);
    DealtValid(TidsOf(stats), n, b, nTargets);
    GatherBucket(sorted, Dealt(TidsOf(stats), n, b), t);
  }

  /** A reference's records go to one output only. */
  lemma OutputsDisjoint(recs: seq<Rec>, nTargets: nat, stats: seq<ChrStat>, sorted: seq<seq<Rec>>, n: nat, b1: nat, b2: nat, t: int)
    requires b1 < n && b2 < n && b1 != b2
    requires StatsFor(Buckets(recs, nTargets), stats)
    requires SortedBuckets(sorted, Buckets(recs, nTargets))
    ensures Bucket(OutputRecords(sorted, stats, n, b1), t) == [] || Bucket(OutputRecords(sorted, stats, n, b2), t) == []
  {
    OutputBucket(recs, nTargets, stats, sorted, n, b1, t);
    OutputBucket(recs, nTargets, stats, sorted, n, b2, t);
    var tids := TidsOf(stats);
    if t in Dealt(tids, n, b1) && t in Dealt(tids, n, b2) {
      DealtMembers(tids, n, b1, t);
      DealtMembers(tids, n, b2, t);
      var i :| 0 <= i < |tids| && tids[i] == t && i % n == b1;
      DealtExactlyOnce(tids, n, i, b2);
    }
  }
}
