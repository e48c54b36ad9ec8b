/** Shifts and the bucket pass of the alert command: shifts are grouped by
    interval code into buckets kept in the order in which each code first
    appears, as a PHP associative array keeps its keys. */
module Buckets {
  import opened Wrappers
  import opened Calendar

  /** The interval code of a shift: the label of its time-of-day slot. It
      is derived from start and end inside the shift entity, which is not
      part of this model: the bucket pass reads it as a stored key, and the
      form model takes the derivation as a parameter. */
  type Code = string

  type JobId = nat
  type FormationId = nat

  /** A scheduled volunteer slot. `shifters` is how many people are
      booked on it. */
  datatype Shift = Shift(
    start: DateTime,
    end: DateTime,
    intervalCode: Code,
    shifters: nat,
    job: Option<JobId>,
    formation: Option<FormationId>)

  /** The shifts of one interval code, in input order. */
  datatype Bucket = Bucket(code: Code, shifts: seq<Shift>)

  function Codes(xs: seq<Shift>): (cs: seq<Code>)
    ensures |cs| == |xs|
    ensures forall i :: 0 <= i < |xs| ==> cs[i] == xs[i].intervalCode
  {
    seq(|xs|, i requires 0 <= i < |xs| => xs[i].intervalCode)
  }

  predicate Distinct<T(==)>(s: seq<T>) {
    forall i, j :: 0 <= i < j < |s| ==> s[i] != s[j]
  }

  /** Each code once, in the order of its first occurrence. */
  function FirstOccurrences(cs: seq<Code>): (r: seq<Code>)
    ensures forall c :: c in r <==> c in cs
    ensures Distinct(r)
  {
    if |cs| == 0 then []
    else
      var p := FirstOccurrences(cs[..|cs| - 1]);
      var c := cs[|cs| - 1];
      assert forall x :: x in cs <==> x in cs[..|cs| - 1] || x == c;
      if c in p then p else p + [c]
  }

  /** The shifts of `xs` whose interval code is `c`, in input order. */
  function WithCode(xs: seq<Shift>, c: Code): (r: seq<Shift>)
    ensures forall s :: s in r ==> s in xs && s.intervalCode == c
    ensures forall s :: s in xs && s.intervalCode == c ==> s in r
    ensures multiset(r) <= multiset(xs)
  {
    if |xs| == 0 then []
    else
      var init := xs[..|xs| - 1];
      var last := xs[|xs| - 1];
      assert xs == init + [last];
      assert forall s :: s in xs <==> s in init || s == last;
      var r0 := WithCode(init, c);
      if last.intervalCode == c then r0 + [last] else r0
  }

  /** The buckets the alert pass builds, defined declaratively: one per
      distinct code, in first-occurrence order, holding exactly the shifts
      of that code. */
  function GroupByCode(xs: seq<Shift>): (bs: seq<Bucket>)
  {
    var ks := FirstOccurrences(Codes(xs));
    seq(|ks|, i requires 0 <= i < |ks| => Bucket(ks[i], WithCode(xs, ks[i])))
  }

  function BucketCodes(bs: seq<Bucket>): (cs: seq<Code>)
    ensures |cs| == |bs|
    ensures forall i :: 0 <= i < |bs| ==> cs[i] == bs[i].code
  {
    seq(|bs|, i requires 0 <= i < |bs| => bs[i].code)
  }

  /** Where the bucket of code `c` sits, or `|bs|` when there is none. */
  function Find(bs: seq<Bucket>, c: Code): (k: nat)
    ensures k <= |bs|
    ensures k < |bs| ==> bs[k].code == c
    ensures forall i :: 0 <= i < k ==> bs[i].code != c
  {
    if |bs| == 0 then 0
    else if bs[0].code == c then 0
    else 1 + Find(bs[1..], c)
  }

  /** One turn of the PHP loop: open a bucket for a code not seen yet,
      then append the shift to its code's bucket. */
  function AddShift(bs: seq<Bucket>, s: Shift): seq<Bucket> {
    var k := Find(bs, s.intervalCode);
    if k < |bs| then bs[k := bs[k].(shifts := bs[k].shifts + [s])]
    else bs + [Bucket(s.intervalCode, [s])]
  }

  lemma WithCodeAbsent(xs: seq<Shift>, c: Code)
    requires c !in Codes(xs)
    ensures WithCode(xs, c) == []
  {
  }

  lemma FirstOccurrencesAppend(xs: seq<Shift>, s: Shift)
    ensures var ks := FirstOccurrences(Codes(xs));
      FirstOccurrences(Codes(xs + [s])) == if s.intervalCode in ks then ks else ks + [s.intervalCode]
  {
    var cs := Codes(xs + [s]);
    assert cs[..|xs|] == Codes(xs);
  }

  lemma WithCodeAppend(xs: seq<Shift>, s: Shift, k: Code)
    ensures WithCode(xs + [s], k) == if s.intervalCode == k then WithCode(xs, k) + [s] else WithCode(xs, k)
  {
    assert (xs + [s])[..|xs|] == xs;
  }

  /** In a list of buckets with distinct codes, `Find` locates each one. */
  lemma FindDistinct(bs: seq<Bucket>, i: nat)
    requires Distinct(BucketCodes(bs)) && i < |bs|
    ensures Find(bs, bs[i].code) == i
  {
  }

  lemma GroupByCodeCodes(xs: seq<Shift>)
    ensures BucketCodes(GroupByCode(xs)) == FirstOccurrences(Codes(xs))
  {
  }

  lemma StepExistingCode(xs: seq<Shift>, s: Shift, i: nat)
    requires i < |GroupByCode(xs)| && GroupByCode(xs)[i].code == s.intervalCode
    ensures var bs := GroupByCode(xs);
      GroupByCode(xs + [s]) == bs[i := bs[i].(shifts := bs[i].shifts + [s])]
  {
    var ks := FirstOccurrences(Codes(xs));
    var bs := GroupByCode(xs);
    var bs' := GroupByCode(xs + [s]);
    FirstOccurrencesAppend(xs, s);
    assert ks[i] == s.intervalCode;
    assert FirstOccurrences(Codes(xs + [s])) == ks;
    assert |bs'| == |bs|;
    var expected := bs[i := bs[i].(shifts := bs[i].shifts + [s])];
    forall m | 0 <= m < |bs'|
      ensures bs'[m] == expected[m]
    {
      WithCodeAppend(xs, s, ks[m]);
      if m == i {
        assert bs'[m] == Bucket(ks[m], WithCode(xs, ks[m]) + [s]);
      } else {
        assert ks[m] != s.intervalCode;
        assert bs'[m] == bs[m];
      }
    }
  }

  /** The bucket of the grouping at a key position. */
  lemma GroupByCodeAt(xs: seq<Shift>, m: nat)
    requires m < |FirstOccurrences(Codes(xs))|
    ensures var ks := FirstOccurrences(Codes(xs));
      |GroupByCode(xs)| == |ks| && GroupByCode(xs)[m] == Bucket(ks[m], WithCode(xs, ks[m]))
  {
  }

  /** One bucket of the grouping after a shift with a new code. */
  lemma NewCodeEntry(xs: seq<Shift>, s: Shift, m: nat)
    requires s.intervalCode !in FirstOccurrences(Codes(xs))
    requires FirstOccurrences(Codes(xs + [s])) == FirstOccurrences(Codes(xs)) + [s.intervalCode]
    requires m <= |FirstOccurrences(Codes(xs))|
    ensures GroupByCode(xs + [s])[m] == (GroupByCode(xs) + [Bucket(s.intervalCode, [s])])[m]
  {
    var ks := FirstOccurrences(Codes(xs));
    var c := (ks + [s.intervalCode])[m];
    GroupByCodeAt(xs + [s], m);
    assert GroupByCode(xs + [s])[m] == Bucket(c, WithCode(xs + [s], c));
    WithCodeAppend(xs, s, c);
    if m < |ks| {
      GroupByCodeAt(xs, m);
      assert c == ks[m] != s.intervalCode;
    } else {
      WithCodeAbsent(xs, s.intervalCode);
      assert [] + [s] == [s];
    }
  }

  lemma StepNewCode(xs: seq<Shift>, s: Shift)
    requires s.intervalCode !in FirstOccurrences(Codes(xs))
    ensures GroupByCode(xs + [s]) == GroupByCode(xs) + [Bucket(s.intervalCode, [s])]
  {
    var bs := GroupByCode(xs);
    var bs' := GroupByCode(xs + [s]);
    FirstOccurrencesAppend(xs, s);
    var expected := bs + [Bucket(s.intervalCode, [s])];
    assert |bs'| == |expected|;
    forall m | 0 <= m < |bs'|
      ensures bs'[m] == expected[m]
    {
      NewCodeEntry(xs, s, m);
    }
  }

  /** The declarative grouping of one more shift is one more turn of the
      loop over the grouping so far. */
  lemma GroupByCodeStep(xs: seq<Shift>, s: Shift)
    ensures GroupByCode(xs + [s]) == AddShift(GroupByCode(xs), s)
  {
    var bs := GroupByCode(xs);
    GroupByCodeCodes(xs);
    var j := Find(bs, s.intervalCode);
    if j < |bs| {
      StepExistingCode(xs, s, j);
    } else {
      assert s.intervalCode !in BucketCodes(bs);
      StepNewCode(xs, s);
    }
  }

  /** `position` locates every bucket by its code, as the keys of the PHP
      associative array do. */
  predicate Indexed(buckets: seq<Bucket>, position: map<Code, nat>) {
    && Distinct(BucketCodes(buckets))
    && (forall c :: c in position ==> position[c] < |buckets| && buckets[position[c]].code == c)
    && (forall i :: 0 <= i < |buckets| ==> buckets[i].code in position)
  }

  /** Opening a bucket under a code not yet indexed keeps the index exact. */
  lemma OpenKeepsIndexed(buckets: seq<Bucket>, position: map<Code, nat>, code: Code)
    requires Indexed(buckets, position) && code !in position
    ensures Indexed(buckets + [Bucket(code, [])], position[code := |buckets|])
  {
    assert BucketCodes(buckets + [Bucket(code, [])]) == BucketCodes(buckets) + [code];
  }

  /** Adding a shift to a bucket leaves the codes, hence the index, alone. */
  lemma AddKeepsIndexed(buckets: seq<Bucket>, position: map<Code, nat>, p: nat, s: Shift)
    requires Indexed(buckets, position) && p < |buckets|
    ensures Indexed(buckets[p := buckets[p].(shifts := buckets[p].shifts + [s])], position)
  {
    assert BucketCodes(buckets[p := buckets[p].(shifts := buckets[p].shifts + [s])]) == BucketCodes(buckets);
  }

  /** The body of the PHP loop: open a bucket under a code not yet set,
      then add the shift to the bucket under its code. */
  function Place(buckets: seq<Bucket>, position: map<Code, nat>, s: Shift): (r: (seq<Bucket>, map<Code, nat>))
    requires Indexed(buckets, position)
    ensures Indexed(r.0, r.1)
    ensures r.0 == AddShift(buckets, s)
  {
    var code := s.intervalCode;
    if code in position then
      var p := position[code];
      FindDistinct(buckets, p);
      AddKeepsIndexed(buckets, position, p, s);
      (buckets[p := buckets[p].(shifts := buckets[p].shifts + [s])], position)
    else
      var withBucket := buckets + [Bucket(code, [])];
      var pos := position[code := |buckets|];
      OpenKeepsIndexed(buckets, position, code);
      AddKeepsIndexed(withBucket, pos, |buckets|, s);
      assert Find(buckets, code) == |buckets|;
      assert [] + [s] == [s];
      assert withBucket[|buckets| := Bucket(code, [s])] == buckets + [Bucket(code, [s])];
      (withBucket[|buckets| := withBucket[|buckets|].(shifts := withBucket[|buckets|].shifts + [s])], pos)
  }

  /** The alert command's bucket loop over the shifts of the day. */
  method BuildBuckets(shifts: seq<Shift>) returns (buckets: seq<Bucket>)
    ensures buckets == GroupByCode(shifts)
  {
    buckets := [];
    var position: map<Code, nat> := map[];
    var n := 0;
    while n < |shifts|
      invariant n <= |shifts|
      invariant buckets == GroupByCode(shifts[..n])
      invariant Indexed(buckets, position)
    {
      var shift := shifts[n];
      assert shifts[..n + 1] == shifts[..n] + [shift];
      GroupByCodeStep(shifts[..n], shift);
      var next := Place(buckets, position, shift);
      buckets, position := next.0, next.1;
      n := n + 1;
    }
    assert shifts[..n] == shifts;
  }

  // ---------------------------------------------------------------------
  // Properties of the grouping

  /** All shifts of all buckets, bucket after bucket. */
  function AllShifts(bs: seq<Bucket>): seq<Shift> {
    if |bs| == 0 then [] else AllShifts(bs[..|bs| - 1]) + bs[|bs| - 1].shifts
  }

  /** How many shifts the buckets hold together. */
  function TotalShifts(bs: seq<Bucket>): nat {
    if |bs| == 0 then 0 else TotalShifts(bs[..|bs| - 1]) + |bs[|bs| - 1].shifts|
  }

  lemma {:induction false} TotalShiftsIsLength(bs: seq<Bucket>)
    ensures TotalShifts(bs) == |AllShifts(bs)|
  {
    if |bs| > 0 {
      TotalShiftsIsLength(bs[..|bs| - 1]);
    }
  }

  lemma {:induction false} AllShiftsAppendToBucket(bs: seq<Bucket>, i: nat, s: Shift)
    requires i < |bs|
    ensures multiset(AllShifts(bs[i := bs[i].(shifts := bs[i].shifts + [s])]))
         == multiset(AllShifts(bs)) + multiset{s}
  {
    var bs' := bs[i := bs[i].(shifts := bs[i].shifts + [s])];
    var n := |bs| - 1;
    if i == n {
      assert bs'[..n] == bs[..n];
    } else {
      assert bs'[..n] == bs[..n][i := bs[i].(shifts := bs[i].shifts + [s])];
      AllShiftsAppendToBucket(bs[..n], i, s);
    }
  }

  lemma AllShiftsSnoc(bs: seq<Bucket>, b: Bucket)
    ensures AllShifts(bs + [b]) == AllShifts(bs) + b.shifts
  {
    assert (bs + [b])[..|bs|] == bs;
  }

  /** Grouping neither drops nor duplicates a shift: the buckets together
      hold exactly the input shifts, each as often as it occurs. */
  lemma {:induction false} GroupByCodePartition(xs: seq<Shift>)
    ensures multiset(AllShifts(GroupByCode(xs))) == multiset(xs)
  {
    if |xs| > 0 {
      var init := xs[..|xs| - 1];
      var s := xs[|xs| - 1];
      assert xs == init + [s];
      assert multiset(xs) == multiset(init) + multiset{s};
      GroupByCodePartition(init);
      GroupByCodeStep(init, s);
      var bs := GroupByCode(init);
      var k := Find(bs, s.intervalCode);
      if k < |bs| {
        AllShiftsAppendToBucket(bs, k, s);
      } else {
        AllShiftsSnoc(bs, Bucket(s.intervalCode, [s]));
      }
    }
  }

  /** The shift counts of the buckets sum to the number of input shifts. */
  lemma GroupByCodeTotal(xs: seq<Shift>)
    ensures TotalShifts(GroupByCode(xs)) == |xs|
  {
    GroupByCodePartition(xs);
    TotalShiftsIsLength(GroupByCode(xs));
    assert |multiset(AllShifts(GroupByCode(xs)))| == |AllShifts(GroupByCode(xs))|;
  }

  /** Every bucket holds at least one shift, all of its own code, and the
      codes of the buckets are pairwise different. */
  lemma GroupByCodeBuckets(xs: seq<Shift>)
    ensures Distinct(BucketCodes(GroupByCode(xs)))
    ensures forall b :: b in GroupByCode(xs) ==> |b.shifts| > 0
    ensures forall b, s :: b in GroupByCode(xs) && s in b.shifts ==> s.intervalCode == b.code
  {
    var bs := GroupByCode(xs);
    GroupByCodeCodes(xs);
    forall b | b in bs
      ensures |b.shifts| > 0
    {
      var i :| 0 <= i < |bs| && bs[i] == b;
      var cs := Codes(xs);
      assert b.code in cs;
      var j :| 0 <= j < |xs| && cs[j] == b.code;
      assert xs[j] in b.shifts;
    }
  }

  /** Every input shift lands in the bucket of its own code and in no
      other one. */
  lemma ShiftInExactlyOneBucket(xs: seq<Shift>, s: Shift)
    requires s in xs
    ensures exists i :: 0 <= i < |GroupByCode(xs)| && s in GroupByCode(xs)[i].shifts
    ensures forall i :: 0 <= i < |GroupByCode(xs)| ==>
      (s in GroupByCode(xs)[i].shifts <==> GroupByCode(xs)[i].code == s.intervalCode)
    ensures forall i, j :: 0 <= i < j < |GroupByCode(xs)| ==>
      !(s in GroupByCode(xs)[i].shifts && s in GroupByCode(xs)[j].shifts)
  {
    var bs := GroupByCode(xs);
    GroupByCodeBuckets(xs);
    var ks := FirstOccurrences(Codes(xs));
    var k :| 0 <= k < |xs| && xs[k] == s;
    assert Codes(xs)[k] == s.intervalCode;
    assert s.intervalCode in ks;
    var i :| 0 <= i < |ks| && ks[i] == s.intervalCode;
    assert s in bs[i].shifts;
    forall i, j | 0 <= i < j < |bs|
      ensures !(s in bs[i].shifts && s in bs[j].shifts)
    {
      assert BucketCodes(bs)[i] != BucketCodes(bs)[j];
    }
  }

  /** The position of the first occurrence of `c` in `cs`. */
  function FirstIndex(cs: seq<Code>, c: Code): (i: nat)
    requires c in cs
    ensures i < |cs| && cs[i] == c
    ensures forall j :: 0 <= j < i ==> cs[j] != c
  {
    if cs[0] == c then 0 else 1 + FirstIndex(cs[1..], c)
  }

  lemma FirstIndexExtend(cs: seq<Code>, c: Code, x: Code)
    requires x in cs
    ensures FirstIndex(cs + [c], x) == FirstIndex(cs, x)
  {
    var a := FirstIndex(cs + [c], x);
    var b := FirstIndex(cs, x);
    assert (cs + [c])[b] == x;
  }

  /** Codes are listed in the order of their first occurrence. */
  lemma {:induction false} FirstOccurrencesOrdered(cs: seq<Code>)
    ensures forall i, j :: 0 <= i < j < |FirstOccurrences(cs)| ==>
      FirstIndex(cs, FirstOccurrences(cs)[i]) < FirstIndex(cs, FirstOccurrences(cs)[j])
  {
    if |cs| > 0 {
      var init := cs[..|cs| - 1];
      var c := cs[|cs| - 1];
      assert cs == init + [c];
      FirstOccurrencesOrdered(init);
      var p := FirstOccurrences(init);
      var r := FirstOccurrences(cs);
      forall x | x in p
        ensures FirstIndex(cs, x) == FirstIndex(init, x)
      {
        FirstIndexExtend(init, c, x);
      }
      if c !in p {
        assert FirstIndex(cs, c) == |init|;
        forall i, j | 0 <= i < j < |r|
          ensures FirstIndex(cs, r[i]) < FirstIndex(cs, r[j])
        {
          assert r[i] == p[i];
          if j < |p| {
            assert r[j] == p[j];
          }
        }
      }
    }
  }

  /** Buckets come in the order in which their codes first appear among
      the shifts. */
  lemma BucketsInFirstOccurrenceOrder(xs: seq<Shift>)
    ensures forall i :: 0 <= i < |GroupByCode(xs)| ==> GroupByCode(xs)[i].code in Codes(xs)
    ensures forall i, j :: 0 <= i < j < |GroupByCode(xs)| ==>
      FirstIndex(Codes(xs), GroupByCode(xs)[i].code) < FirstIndex(Codes(xs), GroupByCode(xs)[j].code)
  {
    FirstOccurrencesOrdered(Codes(xs));
  }

  /** No shifts, no buckets. */
  lemma GroupByCodeEmpty()
    ensures GroupByCode([]) == []
  {
  }
}
