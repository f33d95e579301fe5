/** The figures shown while a batch runs: the average percentage of the
    files in flight, the estimated remaining time, and the default number
    of parallel workers. */
module Aggregates {
  import Decimal
  import opened Options
  import opened Scheduler

  // ---------------------------------------------------------------------
  // Average progress of the files in flight
  // ---------------------------------------------------------------------

  function Sum(xs: seq<real>): real {
    if |xs| == 0 then 0.0 else xs[0] + Sum(xs[1..])
  }

  /** The positions, from `from` on, of the in-flight files that have
      reported, in increasing order: every such position once, nothing
      else. */
  function ReportingFrom(slots: seq<Slot>, progress: map<nat, real>, from: nat): (ps: seq<nat>)
    requires from <= |slots|
    ensures |ps| <= |slots| - from
    ensures forall k :: 0 <= k < |ps| ==> from <= ps[k] < |slots| && slots[ps[k]].index in progress
    ensures forall k, l :: 0 <= k < l < |ps| ==> ps[k] < ps[l]
    ensures forall j :: from <= j < |slots| && slots[j].index in progress ==> j in ps
    decreases |slots| - from
  {
    if from == |slots| then []
    else (if slots[from].index in progress then [from] else []) + ReportingFrom(slots, progress, from + 1)
  }

  /** The percentages last reported by the files in flight, one per
      reporting file, in in-flight order: the values the `forEach` of
      `calculateAverageProgress` adds up. Files that have not reported yet
      are skipped. */
  function Reported(slots: seq<Slot>, progress: map<nat, real>): (r: seq<real>)
    ensures var ps := ReportingFrom(slots, progress, 0);
      && |r| == |ps|
      && forall k :: 0 <= k < |r| ==> r[k] == progress[slots[ps[k]].index]
    ensures |r| <= |slots|
    ensures |r| == 0 <==> forall sl :: sl in slots ==> sl.index !in progress
    ensures forall v :: v in r <==> exists sl :: sl in slots && sl.index in progress && progress[sl.index] == v
  {
    var r := ReportedFrom(slots, progress, 0);
    ReportedEmpty(slots, progress, r);
    ReportedValues(slots, progress, r);
    r
  }

  function ReportedFrom(slots: seq<Slot>, progress: map<nat, real>, from: nat): (r: seq<real>)
    requires from <= |slots|
    ensures var ps := ReportingFrom(slots, progress, from);
      && |r| == |ps|
      && forall k :: 0 <= k < |r| ==> r[k] == progress[slots[ps[k]].index]
    decreases |slots| - from
  {
    if from == |slots| then []
    else (if slots[from].index in progress then [progress[slots[from].index]] else []) + ReportedFrom(slots, progress, from + 1)
  }

  /** A list of values against the reporting positions is empty exactly
      when no file in flight has reported. */
  lemma ReportedEmpty(slots: seq<Slot>, progress: map<nat, real>, r: seq<real>)
    requires |r| == |ReportingFrom(slots, progress, 0)|
    ensures |r| == 0 <==> forall sl :: sl in slots ==> sl.index !in progress
  {
    var ps := ReportingFrom(slots, progress, 0);
    if |r| > 0 {
      FirstReporting(slots, progress);
    } else {
      NoneReporting(slots, progress);
    }
  }

  lemma FirstReporting(slots: seq<Slot>, progress: map<nat, real>)
    requires |ReportingFrom(slots, progress, 0)| > 0
    ensures exists sl :: sl in slots && sl.index in progress
  {
    var j := ReportingFrom(slots, progress, 0)[0];
    assert slots[j] in slots;
  }

  lemma NoneReporting(slots: seq<Slot>, progress: map<nat, real>)
    requires |ReportingFrom(slots, progress, 0)| == 0
    ensures forall sl :: sl in slots ==> sl.index !in progress
  {
    var ps := ReportingFrom(slots, progress, 0);
    forall j | 0 <= j < |slots|
      ensures slots[j].index !in progress
    {
      assert j !in ps;
    }
  }

  /** The values listed against the reporting positions are exactly the
      percentages the files in flight have reported. */
  lemma ReportedValues(slots: seq<Slot>, progress: map<nat, real>, r: seq<real>)
    requires var ps := ReportingFrom(slots, progress, 0);
      && |r| == |ps|
      && forall k :: 0 <= k < |r| ==> r[k] == progress[slots[ps[k]].index]
    ensures forall v :: v in r <==> exists sl :: sl in slots && sl.index in progress && progress[sl.index] == v
  {
    ReportedSound(slots, progress, r);
    ReportedComplete(slots, progress, r);
  }

  lemma ReportedSound(slots: seq<Slot>, progress: map<nat, real>, r: seq<real>)
    requires var ps := ReportingFrom(slots, progress, 0);
      && |r| == |ps|
      && forall k :: 0 <= k < |r| ==> r[k] == progress[slots[ps[k]].index]
    ensures forall v :: v in r ==> exists sl :: sl in slots && sl.index in progress && progress[sl.index] == v
  {
    var ps := ReportingFrom(slots, progress, 0);
    forall k | 0 <= k < |r|
      ensures exists sl :: sl in slots && sl.index in progress && progress[sl.index] == r[k]
    {
      assert slots[ps[k]] in slots;
    }
  }

  lemma ReportedComplete(slots: seq<Slot>, progress: map<nat, real>, r: seq<real>)
    requires var ps := ReportingFrom(slots, progress, 0);
      && |r| == |ps|
      && forall k :: 0 <= k < |r| ==> r[k] == progress[slots[ps[k]].index]
    ensures forall sl :: sl in slots && sl.index in progress ==> progress[sl.index] in r
  {
    var ps := ReportingFrom(slots, progress, 0);
    forall j | 0 <= j < |slots| && slots[j].index in progress
      ensures progress[slots[j].index] in r
    {
      var k :| 0 <= k < |ps| && ps[k] == j;
      assert r[k] == progress[slots[j].index];
    }
  }

  /** Position of a smallest element. */
  function ArgMin(xs: seq<real>): (k: nat)
    requires |xs| > 0
    ensures k < |xs|
    ensures forall j :: 0 <= j < |xs| ==> xs[k] <= xs[j]
  {
    if |xs| == 1 then 0
    else
      var k := ArgMin(xs[1..]) + 1;
      if xs[0] <= xs[k] then 0 else k
  }

  /** Position of a largest element. */
  function ArgMax(xs: seq<real>): (k: nat)
    requires |xs| > 0
    ensures k < |xs|
    ensures forall j :: 0 <= j < |xs| ==> xs[j] <= xs[k]
  {
    if |xs| == 1 then 0
    else
      var k := ArgMax(xs[1..]) + 1;
      if xs[k] <= xs[0] then 0 else k
  }

  lemma {:induction false} SumBounds(xs: seq<real>, lo: real, hi: real)
    requires forall j :: 0 <= j < |xs| ==> lo <= xs[j] <= hi
    ensures (|xs| as real) * lo <= Sum(xs) <= (|xs| as real) * hi
  {
    if |xs| > 0 {
      SumBounds(xs[1..], lo, hi);
    }
  }

  /** The mean of values within [lo, hi] is within [lo, hi]. */
  lemma MeanWithin(xs: seq<real>, lo: real, hi: real)
    requires |xs| > 0
    requires forall j :: 0 <= j < |xs| ==> lo <= xs[j] <= hi
    ensures lo <= Mean(xs) <= hi
  {
    SumBounds(xs, lo, hi);
    DivideBounds(lo, Sum(xs), hi, |xs| as real);
  }

  lemma DivideBounds(lo: real, sum: real, hi: real, n: real)
    requires n > 0.0
    requires n * lo <= sum <= n * hi
    ensures lo <= sum / n <= hi
  {
    var m := sum / n;
    assert m * n == sum;
  }

  /** `calculateAverageProgress`: 0 when nothing is in flight or no file in
      flight has reported; otherwise the mean of the reported percentages,
      each reporting file counted once however its value compares with the
      others'. */
  function AverageProgress(slots: seq<Slot>, progress: map<nat, real>): (avg: real)
    ensures (forall sl :: sl in slots ==> sl.index !in progress) ==> avg == 0.0
    ensures var rs := Reported(slots, progress);
      |rs| > 0 ==> IsMean(avg, rs)
    ensures |Reported(slots, progress)| > 0 ==>
      var rs := Reported(slots, progress);
      rs[ArgMin(rs)] <= avg <= rs[ArgMax(rs)]
  {
    var rs := Reported(slots, progress);
    if |slots| == 0 then
      assert |rs| == 0;
      0.0
    else
      if |rs| > 0 then
        MeanWithin(rs, rs[ArgMin(rs)], rs[ArgMax(rs)]);
        Mean(rs)
      else 0.0
  }

  /** `m` is the mean of `xs`: times the count, it gives the sum. With at
      least one value there is exactly one such `m`. */
  predicate IsMean(m: real, xs: seq<real>) {
    m * (|xs| as real) == Sum(xs)
  }

  /** The sum over the count. */
  function Mean(xs: seq<real>): (m: real)
    requires |xs| > 0
    ensures IsMean(m, xs)
  {
    var n := |xs| as real;
    var m := Sum(xs) / n;
    assert m * n == Sum(xs);
    m
  }

  /** When every file in flight from `from` on has reported, every one of
      those positions reports. */
  lemma {:induction false} AllReportingFrom(slots: seq<Slot>, progress: map<nat, real>, from: nat)
    requires from <= |slots|
    requires forall j :: from <= j < |slots| ==> slots[j].index in progress
    ensures ReportingFrom(slots, progress, from) == Range(from, |slots|)
    decreases |slots| - from
  {
    if from < |slots| {
      AllReportingFrom(slots, progress, from + 1);
    }
  }

  /** When every file in flight has reported, the average is taken over
      one value per file, in in-flight order, equal values included. */
  lemma AllReported(slots: seq<Slot>, progress: map<nat, real>)
    requires forall j :: 0 <= j < |slots| ==> slots[j].index in progress
    ensures var rs := Reported(slots, progress);
      && |rs| == |slots|
      && forall k :: 0 <= k < |slots| ==> rs[k] == progress[slots[k].index]
    ensures |slots| > 0 ==> IsMean(AverageProgress(slots, progress), Reported(slots, progress))
  {
    AllReportingFrom(slots, progress, 0);
  }

  /** Percentages within [lo, hi] average within [lo, hi]; in particular
      reports of fractions in [0, 1] keep the average within [0, 100]. */
  lemma AverageWithin(slots: seq<Slot>, progress: map<nat, real>, lo: real, hi: real)
    requires 0.0 <= hi && lo <= 0.0
    requires forall j :: j in progress ==> lo <= progress[j] <= hi
    ensures lo <= AverageProgress(slots, progress) <= hi
  {
    var rs := Reported(slots, progress);
    if |rs| > 0 {
      assert rs[ArgMin(rs)] in rs && rs[ArgMax(rs)] in rs;
    }
  }

  // ---------------------------------------------------------------------
  // Remaining time
  // ---------------------------------------------------------------------

  /** `Math.round(a / b)`: the nearest integer, halves rounded up. */
  function RoundHalfUp(a: int, b: nat): (r: int)
    requires b > 0
    ensures 2 * b * r <= 2 * a + b < 2 * b * r + 2 * b
  {
    (2 * a + b) / (2 * b)
  }

  /** `Math.round(elapsed / processed * (total - processed))`, in exact
      arithmetic. */
  function RemainingSeconds(total: nat, processed: nat, elapsed: nat): (secs: int)
    requires processed > 0
    ensures 2 * processed * secs <= 2 * elapsed * (total - processed) + processed < 2 * processed * secs + 2 * processed
  {
    RoundHalfUp(elapsed * (total - processed), processed)
  }

  /** The remaining time as the panel shows it. */
  datatype Estimate =
    | Calculating
    | Seconds(total: int)
    | MinutesSeconds(minutes: nat, seconds: nat)

  /** `estimateRemainingTime`: no estimate before the first file is
      processed or the first second has passed; under a minute in
      seconds; otherwise split into minutes and seconds. */
  function EstimateRemaining(converting: bool, total: nat, processed: nat, elapsed: nat): (e: Estimate)
    ensures e.Calculating? <==> !converting || processed == 0 || elapsed == 0
    ensures !e.Calculating? ==>
      var secs := RemainingSeconds(total, processed, elapsed);
      && (e.Seconds? <==> secs < 60)
      && (e.Seconds? ==> e.total == secs)
      && (e.MinutesSeconds? ==> e.minutes * 60 + e.seconds == secs && e.seconds < 60 && e.minutes >= 1)
  {
    if !converting || processed == 0 || elapsed == 0 then Calculating
    else
      var secs := RemainingSeconds(total, processed, elapsed);
      if secs < 60 then Seconds(secs) else MinutesSeconds(secs / 60, secs % 60)
  }

  /** While files remain, the estimate is the remaining files times the
      average time per processed file, to the nearest second; with none
      remaining it is 0 seconds. */
  lemma EstimateIsNearestSecond(total: nat, processed: nat, elapsed: nat)
    requires 0 < processed <= total
    ensures var secs := RemainingSeconds(total, processed, elapsed);
      && secs >= 0
      && 2 * processed * secs <= 2 * elapsed * (total - processed) + processed
      && 2 * elapsed * (total - processed) + processed < 2 * processed * (secs + 1)
      && (processed == total ==> secs == 0)
  {
    var secs := RemainingSeconds(total, processed, elapsed);
    var a := elapsed * (total - processed);
    assert a >= 0;
    assert processed * (2 * secs + 1) > 2 * a;
    PositiveFactor(processed, 2 * secs + 1);
    if processed == total {
      assert a == 0;
      assert processed * (2 * secs) <= processed * 1;
      CancelFactor(processed, 2 * secs, 1);
    }
  }

  lemma PositiveFactor(p: nat, x: int)
    requires p > 0 && p * x > 0
    ensures x > 0
  {

  }

  lemma CancelFactor(p: nat, x: int, y: int)
    requires p > 0 && p * x <= p * y
    ensures x <= y
  {
    assert p * (y - x) >= 0;
  }

  const CalculatingText: string := "Calculando..."
  const SecondsSuffix: string := " segundos"
  const MinutesSeparator: string := " min "
  const SecondsUnit: string := " seg"

  predicate EndsWith(s: string, suffix: string) {
    |suffix| <= |s| && s[|s| - |suffix|..] == suffix
  }

  /** The length of the run of digits `s` starts with. */
  function LeadingDigits(s: string): (n: nat)
    ensures n <= |s|
    ensures Decimal.AllDigits(s[..n])
    ensures n < |s| ==> !Decimal.IsDigit(s[n])
  {
    if |s| == 0 || !Decimal.IsDigit(s[0]) then 0
    else
      var n := 1 + LeadingDigits(s[1..]);
      assert forall k :: 0 < k < n ==> s[..n][k] == s[1..][..n - 1][k - 1];
      n
  }

  /** Reads the remaining-time text back: "Calculando...", "<n> segundos"
      or "<m> min <s> seg" with numbers written as `${n}` writes them (no
      leading zeros, no "-0"); None for any other text. */
  function ReadEstimate(text: string): Option<Estimate> {
    if text == CalculatingText then Some(Calculating)
    else if EndsWith(text, SecondsSuffix) then
      match Decimal.ParseInt(text[..|text| - |SecondsSuffix|])
      case Some(n) => Some(Seconds(n))
      case None => None
    else if EndsWith(text, SecondsUnit) then
      var body := text[..|text| - |SecondsUnit|];
      var j := LeadingDigits(body);
      if j + |MinutesSeparator| < |body| && body[j..j + |MinutesSeparator|] == MinutesSeparator
        && Decimal.Canonical(body[..j]) && Decimal.Canonical(body[j + |MinutesSeparator|..])
      then Some(MinutesSeconds(Decimal.ParseNat(body[..j]), Decimal.ParseNat(body[j + |MinutesSeparator|..])))
      else None
    else None
  }

  /** The text of the estimate, which reads back as the estimate. */
  function EstimateText(e: Estimate): (text: string)
    ensures e.Calculating? <==> text == CalculatingText
    ensures e.Seconds? ==> EndsWith(text, SecondsSuffix)
    ensures e.MinutesSeconds? ==> EndsWith(text, SecondsUnit) && !EndsWith(text, SecondsSuffix)
    ensures ReadEstimate(text) == Some(e)
  {
    match e
    case Calculating => CalculatingText
    case Seconds(n) =>
      SecondsTextReads(n);
      Decimal.IntToString(n) + SecondsSuffix
    case MinutesSeconds(m, n) =>
      MinutesTextReads(m, n);
      Decimal.NatToString(m) + MinutesSeparator + Decimal.NatToString(n) + SecondsUnit
  }

  /** "<n> segundos" reads back as n seconds. */
  lemma SecondsTextReads(n: int)
    ensures var text := Decimal.IntToString(n) + SecondsSuffix;
      && text != CalculatingText
      && EndsWith(text, SecondsSuffix)
      && ReadEstimate(text) == Some(Seconds(n))
  {
    var d := Decimal.IntToString(n);
    var text := d + SecondsSuffix;
    assert text[0] == d[0];
    assert text[0] != 'C';
    assert text[|text| - |SecondsSuffix|..] == SecondsSuffix;
    assert text[..|text| - |SecondsSuffix|] == d;
    Decimal.ParseIntToString(n);
  }

  /** "<m> min <s> seg" reads back as m minutes and s seconds. */
  lemma MinutesTextReads(m: nat, n: nat)
    ensures var text := Decimal.NatToString(m) + MinutesSeparator + Decimal.NatToString(n) + SecondsUnit;
      && text != CalculatingText
      && !EndsWith(text, SecondsSuffix)
      && EndsWith(text, SecondsUnit)
      && ReadEstimate(text) == Some(MinutesSeconds(m, n))
  {
    var dm, dn := Decimal.NatToString(m), Decimal.NatToString(n);
    var body := dm + MinutesSeparator + dn;
    var text := body + SecondsUnit;
    MinutesTextShape(body);
    MinutesBodyParts(dm, dn);
    Decimal.ParseNatToString(m);
    Decimal.ParseNatToString(n);
  }

  /** A text made of a body starting with a digit and the unit " seg" is
      neither "Calculando..." nor a seconds text, and drops back to the
      body. */
  lemma MinutesTextShape(body: string)
    requires |body| > 0 && Decimal.IsDigit(body[0])
    ensures var text := body + SecondsUnit;
      && text != CalculatingText
      && !EndsWith(text, SecondsSuffix)
      && EndsWith(text, SecondsUnit)
      && text[..|text| - |SecondsUnit|] == body
  {
    var text := body + SecondsUnit;
    assert text[0] == body[0];
    assert text[|text| - 1] == 'g';
    assert text[|text| - |SecondsUnit|..] == SecondsUnit;
  }

  /** The minutes text's body splits at its first non-digit into the
      minutes' digits, the separator and the seconds' digits. */
  lemma MinutesBodyParts(dm: string, dn: string)
    requires |dm| > 0 && Decimal.AllDigits(dm)
    ensures var body := dm + MinutesSeparator + dn;
      && Decimal.IsDigit(body[0])
      && LeadingDigits(body) == |dm|
      && body[..|dm|] == dm
      && body[|dm|..|dm| + |MinutesSeparator|] == MinutesSeparator
      && body[|dm| + |MinutesSeparator|..] == dn
  {
    var body := dm + MinutesSeparator + dn;
    LeadingDigitsOf(dm, MinutesSeparator + dn);
    assert body == dm + (MinutesSeparator + dn);
  }

  /** Each estimate has exactly one text: the reader accepts a text for an
      estimate exactly when it is the text the panel shows for it. */
  lemma EstimateTextExactly(text: string, e: Estimate)
    ensures ReadEstimate(text) == Some(e) <==> text == EstimateText(e)
  {
    if ReadEstimate(text) == Some(e) {
      if text == CalculatingText {
      } else if EndsWith(text, SecondsSuffix) {
        SecondsTextExactly(text);
      } else {
        MinutesTextExactly(text);
      }
    }
  }

  lemma SecondsTextExactly(text: string)
    requires text != CalculatingText && EndsWith(text, SecondsSuffix)
    requires ReadEstimate(text).Some?
    ensures text == EstimateText(ReadEstimate(text).value)
  {
    var p := text[..|text| - |SecondsSuffix|];
    assert text == p + SecondsSuffix;
  }

  lemma MinutesTextExactly(text: string)
    requires text != CalculatingText && !EndsWith(text, SecondsSuffix)
    requires ReadEstimate(text).Some?
    ensures text == EstimateText(ReadEstimate(text).value)
  {
    var body := text[..|text| - |SecondsUnit|];
    var j := LeadingDigits(body);
    var k := j + |MinutesSeparator|;
    var dm, dn := body[..j], body[k..];
    Decimal.NatToStringOfParse(dm);
    Decimal.NatToStringOfParse(dn);
    assert body == dm + MinutesSeparator + dn;
    assert text == body + SecondsUnit;
  }

  /** A run of digits followed by a non-digit is read to its end. */
  lemma {:induction false} LeadingDigitsOf(d: string, rest: string)
    requires Decimal.AllDigits(d)
    requires |rest| > 0 && !Decimal.IsDigit(rest[0])
    ensures LeadingDigits(d + rest) == |d|
  {
    if |d| > 0 {
      assert (d + rest)[1..] == d[1..] + rest;
      LeadingDigitsOf(d[1..], rest);
    } else {
      assert d + rest == rest;
    }
  }

  // ---------------------------------------------------------------------
  // Default parallelism
  // ---------------------------------------------------------------------

  /** `navigator.hardwareConcurrency || 4`: a missing or zero core count
      reads as 4. */
  function Cores(hardwareConcurrency: nat): (c: nat)
    ensures c >= 1
    ensures hardwareConcurrency > 0 ==> c == hardwareConcurrency
    ensures hardwareConcurrency == 0 ==> c == 4
  {
    if hardwareConcurrency == 0 then 4 else hardwareConcurrency
  }

  /** `Math.max(2, Math.floor(cores * 0.75))`: three quarters of the cores
      rounded down, but at least two. */
  function DefaultWorkers(hardwareConcurrency: nat): (w: nat)
    ensures w >= 2
    ensures var c := Cores(hardwareConcurrency);
      3 * c < 4 * w + 4
    ensures var c := Cores(hardwareConcurrency);
      w > 2 ==> 4 * w <= 3 * c
    ensures var c := Cores(hardwareConcurrency);
      c >= 2 ==> w <= c
  {
    var c := Cores(hardwareConcurrency);
    var q := (3 * c) / 4;
    if q < 2 then 2 else q
  }

  /** The contract of `DefaultWorkers` leaves one value: any count that is
      at least two, below the next quarter step and, above two, at most
      three quarters of the cores is the default. */
  lemma DefaultWorkersUnique(hardwareConcurrency: nat, v: nat)
    requires v >= 2
    requires 3 * Cores(hardwareConcurrency) < 4 * v + 4
    requires v > 2 ==> 4 * v <= 3 * Cores(hardwareConcurrency)
    ensures v == DefaultWorkers(hardwareConcurrency)
  {
  }

  /** More cores never mean fewer default workers. */
  lemma DefaultWorkersMonotone(a: nat, b: nat)
    requires 0 < a <= b
    ensures DefaultWorkers(a) <= DefaultWorkers(b)
  {
  }

  /** The parallelism slider ranges over 1..min(16, cores * 12); the default
      lies inside it exactly on machines with at most 22 cores. */
  lemma DefaultWorkersOnSlider(hardwareConcurrency: nat)
    ensures 1 <= DefaultWorkers(hardwareConcurrency)
    ensures var c := Cores(hardwareConcurrency);
      DefaultWorkers(hardwareConcurrency) <= Scheduler.Min(16, c * 12) <==> hardwareConcurrency <= 22
  {
  }
}
