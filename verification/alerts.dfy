/** The alert pass of the alert command: every bucket with fewer than two
    people booked yields an alert carrying the issue
    "<count> personnes inscrites sur <shifts>"; an alert is kept only when
    it has at least one issue. */
module Alerts {
  import opened Strings
  import opened Buckets

  /** People booked on a list of shifts. The bucket entity computing this
      count is not part of this model: it is taken to be the sum of the
      per-shift counts. */
  function SumShifters(xs: seq<Shift>): nat {
    if |xs| == 0 then 0 else SumShifters(xs[..|xs| - 1]) + xs[|xs| - 1].shifters
  }

  lemma {:induction false} SumShiftersBounds(xs: seq<Shift>)
    ensures forall s :: s in xs ==> s.shifters <= SumShifters(xs)
    ensures SumShifters(xs) == 0 <==> forall s :: s in xs ==> s.shifters == 0
  {
    if |xs| > 0 {
      var init := xs[..|xs| - 1];
      SumShiftersBounds(init);
      assert forall s :: s in xs <==> s in init || s == xs[|xs| - 1];
    }
  }

  /** The people booked in a bucket: no fewer than on any one of its
      shifts, and none exactly when none of its shifts has anyone. */
  function ShifterCount(b: Bucket): (n: nat)
    ensures forall s :: s in b.shifts ==> s.shifters <= n
    ensures n == 0 <==> forall s :: s in b.shifts ==> s.shifters == 0
  {
    SumShiftersBounds(b.shifts);
    SumShifters(b.shifts)
  }

  /** The staffing threshold: a bucket is short below this many people. */
  const MinShifters: nat := 2

  predicate Understaffed(b: Bucket) {
    ShifterCount(b) < MinShifters
  }

  const IssueSeparator: string := " personnes inscrites sur "

  /** The text of the under-staffing issue: its leading digits are the
      count in decimal, without leading zero, and the separator and the
      number of shifts follow them. */
  function IssueText(count: nat, shifts: nat): (r: string)
    ensures var k := DigitPrefixLength(r);
      && 0 < k && ValueOf(r[..k]) == count && (k > 1 ==> r[0] != '0')
      && r[k..] == IssueSeparator + NatToString(shifts)
  {
    var a := NatToString(count);
    var r := a + (IssueSeparator + NatToString(shifts));
    DigitPrefixOf(a, IssueSeparator + NatToString(shifts));
    ValueOfNatToString(count);
    assert r[..|a|] == a;
    r
  }

  /** An alert names its bucket and the issues found with it. */
  datatype ShiftAlert = ShiftAlert(bucket: Bucket, issues: seq<string>)

  /** The issues of one bucket: at most the one under-staffing issue. */
  function BucketIssues(b: Bucket): (issues: seq<string>)
    ensures |issues| <= 1
    ensures |issues| == 1 <==> Understaffed(b)
    ensures forall t :: t in issues ==> t == IssueText(ShifterCount(b), |b.shifts|)
  {
    if ShifterCount(b) < MinShifters then [IssueText(ShifterCount(b), |b.shifts|)] else []
  }

  function AlertedBuckets(alerts: seq<ShiftAlert>): (bs: seq<Bucket>)
    ensures |bs| == |alerts|
    ensures forall i :: 0 <= i < |alerts| ==> bs[i] == alerts[i].bucket
  {
    seq(|alerts|, i requires 0 <= i < |alerts| => alerts[i].bucket)
  }

  /** `xs` is `ys` with some elements left out, the rest in the same order. */
  predicate IsSubsequence<T(==)>(xs: seq<T>, ys: seq<T>)
    decreases |ys|
  {
    if |xs| == 0 then true
    else if |ys| == 0 then false
    else if xs[|xs| - 1] == ys[|ys| - 1] then IsSubsequence(xs[..|xs| - 1], ys[..|ys| - 1])
    else IsSubsequence(xs, ys[..|ys| - 1])
  }

  lemma {:induction false} SubsequenceExtend<T>(xs: seq<T>, ys: seq<T>, y: T)
    requires IsSubsequence(xs, ys)
    ensures IsSubsequence(xs, ys + [y])
    decreases |ys|, 1
  {
    var ys' := ys + [y];
    assert ys'[..|ys|] == ys;
    if |xs| > 0 && xs[|xs| - 1] == y {
      // The greedy match takes `y`; the rest of `xs` must fit in `ys`.
      SubsequenceDropLast(xs, ys);
    }
  }

  lemma {:induction false} SubsequenceDropLast<T>(xs: seq<T>, ys: seq<T>)
    requires |xs| > 0 && IsSubsequence(xs, ys)
    ensures IsSubsequence(xs[..|xs| - 1], ys)
    decreases |ys|, 0
  {
    var init := xs[..|xs| - 1];
    if |init| > 0 {
      if xs[|xs| - 1] == ys[|ys| - 1] {
        SubsequenceExtend(init, ys[..|ys| - 1], ys[|ys| - 1]);
        assert ys[..|ys| - 1] + [ys[|ys| - 1]] == ys;
      } else {
        SubsequenceDropLast(xs, ys[..|ys| - 1]);
        SubsequenceExtend(init, ys[..|ys| - 1], ys[|ys| - 1]);
        assert ys[..|ys| - 1] + [ys[|ys| - 1]] == ys;
      }
    }
  }

  /** The alerts of a list of buckets, in bucket order. */
  function EvaluateAlerts(bs: seq<Bucket>): (alerts: seq<ShiftAlert>)
    ensures |alerts| <= |bs|
    ensures forall a :: a in alerts ==> a.bucket in bs && a.issues == BucketIssues(a.bucket) && |a.issues| > 0
  {
    if |bs| == 0 then []
    else
      var init := bs[..|bs| - 1];
      var b := bs[|bs| - 1];
      var prev := EvaluateAlerts(init);
      assert forall x :: x in init ==> x in bs;
      var alert := ShiftAlert(b, BucketIssues(b));
      if |alert.issues| > 0 then prev + [alert] else prev
  }

  /** A bucket is alerted exactly when it is under-staffed. */
  lemma {:induction false} AlertIffUnderstaffed(bs: seq<Bucket>)
    ensures forall b :: b in bs ==> (b in AlertedBuckets(EvaluateAlerts(bs)) <==> Understaffed(b))
  {
    if |bs| > 0 {
      var init := bs[..|bs| - 1];
      var b := bs[|bs| - 1];
      assert bs == init + [b];
      AlertIffUnderstaffed(init);
      var prev := EvaluateAlerts(init);
      if Understaffed(b) {
        assert AlertedBuckets(EvaluateAlerts(bs)) == AlertedBuckets(prev) + [b];
      }
      forall x | x in bs
        ensures x in AlertedBuckets(EvaluateAlerts(bs)) <==> Understaffed(x)
      {
        if x != b {
          assert x in init;
        }
      }
    }
  }

  /** One more bucket adds its alert at the end, if it is under-staffed. */
  lemma EvaluateAlertsSnoc(init: seq<Bucket>, b: Bucket)
    ensures EvaluateAlerts(init + [b])
         == EvaluateAlerts(init) + (if Understaffed(b) then [ShiftAlert(b, BucketIssues(b))] else [])
  {
    var bs := init + [b];
    assert bs[..|bs| - 1] == init;
  }

  lemma AlertedBucketsSnoc(alerts: seq<ShiftAlert>, a: ShiftAlert)
    ensures AlertedBuckets(alerts + [a]) == AlertedBuckets(alerts) + [a.bucket]
  {
  }

  /** Alerts follow the order of their buckets. */
  lemma {:induction false} AlertsKeepBucketOrder(bs: seq<Bucket>)
    ensures IsSubsequence(AlertedBuckets(EvaluateAlerts(bs)), bs)
  {
    if |bs| > 0 {
      var init := bs[..|bs| - 1];
      var b := bs[|bs| - 1];
      assert bs == init + [b];
      AlertsKeepBucketOrder(init);
      EvaluateAlertsSnoc(init, b);
      var prevAlerts := EvaluateAlerts(init);
      var prev := AlertedBuckets(prevAlerts);
      if Understaffed(b) {
        AlertedBucketsSnoc(prevAlerts, ShiftAlert(b, BucketIssues(b)));
        var r := prev + [b];
        assert r[..|r| - 1] == prev;
      } else {
        SubsequenceExtend(prev, init, b);
      }
    }
  }

  /** The issue text can be read back: different counts never produce
      the same text. */
  lemma IssueTextInjective(c1: nat, n1: nat, c2: nat, n2: nat)
    ensures IssueText(c1, n1) == IssueText(c2, n2) <==> c1 == c2 && n1 == n2
  {
    if IssueText(c1, n1) == IssueText(c2, n2) {
      var t := IssueText(c1, n1);
      var k := DigitPrefixLength(t);
      assert IssueSeparator + NatToString(n1) == t[k..] == IssueSeparator + NatToString(n2);
      assert NatToString(n1) == (IssueSeparator + NatToString(n1))[|IssueSeparator|..];
      assert NatToString(n2) == (IssueSeparator + NatToString(n2))[|IssueSeparator|..];
      NatToStringInjective(n1, n2);
    }
  }

  /** The bucket of a code present among the shifts. */
  lemma BucketOfCode(xs: seq<Shift>, c: Code)
    requires c in Codes(xs)
    ensures Bucket(c, WithCode(xs, c)) in GroupByCode(xs)
  {
    var ks := FirstOccurrences(Codes(xs));
    var i :| 0 <= i < |ks| && ks[i] == c;
    assert GroupByCode(xs)[i] == Bucket(c, WithCode(xs, c));
  }

  /** From shifts to alerts in one statement: a code is alerted exactly
      when it occurs among the shifts and fewer than two people are booked
      on the shifts of that code altogether. */
  lemma AlertedCodes(xs: seq<Shift>, c: Code)
    ensures c in BucketCodes(AlertedBuckets(EvaluateAlerts(GroupByCode(xs))))
        <==> c in Codes(xs) && SumShifters(WithCode(xs, c)) < MinShifters
  {
    var bs := GroupByCode(xs);
    var alerted := AlertedBuckets(EvaluateAlerts(bs));
    AlertIffUnderstaffed(bs);
    if c in BucketCodes(alerted) {
      var i :| 0 <= i < |alerted| && alerted[i].code == c;
      var b := alerted[i];
      assert b in bs;
      var j :| 0 <= j < |bs| && bs[j] == b;
      assert b == Bucket(c, WithCode(xs, c));
      GroupByCodeBuckets(xs);
      assert c in BucketCodes(bs) by { assert BucketCodes(bs)[j] == c; }
      GroupByCodeCodes(xs);
    }
    if c in Codes(xs) && SumShifters(WithCode(xs, c)) < MinShifters {
      BucketOfCode(xs, c);
      var b := Bucket(c, WithCode(xs, c));
      assert b in alerted;
      var i :| 0 <= i < |alerted| && alerted[i] == b;
      assert BucketCodes(alerted)[i] == c;
    }
  }

  /** No alert at all exactly when every code among the shifts has at
      least two people booked. */
  lemma NoAlertIffStaffed(xs: seq<Shift>)
    ensures EvaluateAlerts(GroupByCode(xs)) == []
        <==> forall c :: c in Codes(xs) ==> SumShifters(WithCode(xs, c)) >= MinShifters
  {
    var alerts := EvaluateAlerts(GroupByCode(xs));
    forall c
      ensures c in BucketCodes(AlertedBuckets(alerts))
        <==> c in Codes(xs) && SumShifters(WithCode(xs, c)) < MinShifters
    {
      AlertedCodes(xs, c);
    }
    if alerts != [] {
      assert BucketCodes(AlertedBuckets(alerts))[0] in BucketCodes(AlertedBuckets(alerts));
    }
  }

  lemma TwoSlotCodes(a: Shift, b: Shift, c: Shift)
    requires a.intervalCode == b.intervalCode != c.intervalCode
    ensures FirstOccurrences(Codes([a, b, c])) == [a.intervalCode, c.intervalCode]
  {
    var cs := Codes([a, b, c]);
    assert cs == [a.intervalCode, a.intervalCode, c.intervalCode];
    assert cs[..2][..1] == [a.intervalCode];
    assert FirstOccurrences(cs[..2][..1]) == [a.intervalCode];
    assert cs[..2] == [a.intervalCode, a.intervalCode];
  }

  lemma TwoSlotFilters(a: Shift, b: Shift, c: Shift)
    requires a.intervalCode == b.intervalCode != c.intervalCode
    ensures WithCode([a, b, c], a.intervalCode) == [a, b]
    ensures WithCode([a, b, c], c.intervalCode) == [c]
  {
    assert [] + [a] == [a] && [a] + [b] == [a, b] && [a, b] + [c] == [a, b, c];
    WithCodeAppend([], a, a.intervalCode);
    WithCodeAppend([a], b, a.intervalCode);
    WithCodeAppend([a, b], c, a.intervalCode);
    WithCodeAppend([], a, c.intervalCode);
    WithCodeAppend([a], b, c.intervalCode);
    WithCodeAppend([a, b], c, c.intervalCode);
  }

  /** Two shifts of one slot followed by one of another slot make two
      buckets, in that order. */
  lemma TwoSlotBuckets(a: Shift, b: Shift, c: Shift)
    requires a.intervalCode == b.intervalCode != c.intervalCode
    ensures GroupByCode([a, b, c]) == [Bucket(a.intervalCode, [a, b]), Bucket(c.intervalCode, [c])]
  {
    TwoSlotCodes(a, b, c);
    TwoSlotFilters(a, b, c);
    var bs := GroupByCode([a, b, c]);
    assert |bs| == 2;
    assert bs[0] == Bucket(a.intervalCode, [a, b]);
    assert bs[1] == Bucket(c.intervalCode, [c]);
  }

  lemma IssueTextExample()
    ensures IssueText(1, 2) == "1 personnes inscrites sur 2"
  {
  }

  /** A worked day: two morning shifts with 0 and 1 people booked and one
      later shift with 3 give a single alert, on the morning slot, reading
      "1 personnes inscrites sur 2". */
  lemma WorkedExample(a: Shift, b: Shift, c: Shift)
    requires a.intervalCode == b.intervalCode == "08:00-10:00"
    requires c.intervalCode == "10:00-12:00"
    requires a.shifters == 0 && b.shifters == 1 && c.shifters == 3
    ensures EvaluateAlerts(GroupByCode([a, b, c]))
         == [ShiftAlert(Bucket("08:00-10:00", [a, b]), ["1 personnes inscrites sur 2"])]
  {
    IssueTextExample();
    TwoSlotBuckets(a, b, c);
    var bs := [Bucket("08:00-10:00", [a, b]), Bucket("10:00-12:00", [c])];
    assert SumShifters([a, b]) == 1 by {
      assert [a][..0] == [];
      assert SumShifters([a]) == 0;
      assert [a, b][..1] == [a];
    }
    assert SumShifters([c]) == 3 by {
      assert [c][..0] == [];
    }
    assert bs[..1] == [Bucket("08:00-10:00", [a, b])];
    assert [Bucket("08:00-10:00", [a, b])][..0] == [];
  }
}
