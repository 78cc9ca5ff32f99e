/** The per-facility patient risk report: age statistics, a diagnosis
    frequency table, a risk score per patient, a stable ranking by score and
    the top three of it. Each pass over the roster is a method proved against
    a specification function; `CalculatePatientReport` runs the five passes. */
module RiskReport {
  import opened Text
  import opened Records
  import opened Ranking

  /** The report as serialized: `avg`, `max`, `min`, `diagnoses`, `high_risk`, `total`. */
  datatype Report = Report(
    avg: real,
    max: int,
    min: int,
    diagnoses: map<string, nat>,
    highRisk: seq<RiskEntry>,
    total: nat)

  // Section 1: age statistics.

  function SumAges(ps: seq<Patient>): int {
    if ps == [] then 0 else SumAges(ps[..|ps| - 1]) + ps[|ps| - 1].age
  }

  /** The running maximum started at 0: the largest of 0 and every age. */
  function MaxAge(ps: seq<Patient>): (m: int)
    ensures 0 <= m
    ensures forall i :: 0 <= i < |ps| ==> ps[i].age <= m
    ensures m == 0 || exists i :: 0 <= i < |ps| && ps[i].age == m
  {
    if ps == [] then 0
    else
      var prev := MaxAge(ps[..|ps| - 1]);
      assert forall i :: 0 <= i < |ps| - 1 ==> ps[..|ps| - 1][i] == ps[i];
      if ps[|ps| - 1].age > prev then ps[|ps| - 1].age else prev
  }

  /** The running minimum, where 0 stands for "no minimum yet": a 0 minimum is
      replaced by the next age whatever it is. */
  function RunningMin(ps: seq<Patient>): (c: int)
    ensures ps == [] ==> c == 0
    ensures ps != [] ==> exists i :: 0 <= i < |ps| && ps[i].age == c
    ensures ps != [] ==> c <= ps[|ps| - 1].age
  {
    if ps == [] then 0
    else
      var init := ps[..|ps| - 1];
      var c := RunningMin(init);
      var x := ps[|ps| - 1].age;
      assert forall i :: 0 <= i < |init| ==> init[i] == ps[i];
      if c == 0 then x else if x < c then x else c
  }

  /** With no age equal to 0 the running minimum is the true minimum, and it is
      0 for an empty roster. */
  lemma {:induction false} RunningMinIsMinimum(ps: seq<Patient>)
    requires forall i :: 0 <= i < |ps| ==> ps[i].age != 0
    ensures ps == [] ==> RunningMin(ps) == 0
    ensures forall i :: 0 <= i < |ps| ==> RunningMin(ps) <= ps[i].age
    ensures ps != [] ==> exists i :: 0 <= i < |ps| && ps[i].age == RunningMin(ps)
  {
    if ps != [] {
      var init := ps[..|ps| - 1];
      assert forall i :: 0 <= i < |init| ==> init[i] == ps[i];
      RunningMinIsMinimum(init);
      if init != [] {
        var i :| 0 <= i < |init| && init[i].age == RunningMin(init);
        assert RunningMin(init) != 0;
      }
    }
  }

  /** An age of 0 after a non-negative running minimum resets it, so the next
      age becomes the minimum even when smaller ages came before. */
  lemma ZeroAgeResetsMinimum(ps: seq<Patient>, zero: Patient, next: Patient)
    requires zero.age == 0 && RunningMin(ps) >= 0
    ensures RunningMin(ps + [zero, next]) == next.age
  {
    var s := ps + [zero, next];
    assert s[..|s| - 1] == ps + [zero];
    assert (ps + [zero])[..|ps|] == ps;
  }

  /** Ages at most `hi` sum to at most `|ps| * hi`. */
  lemma {:induction false} SumAgesAtMost(ps: seq<Patient>, hi: int)
    requires forall i :: 0 <= i < |ps| ==> ps[i].age <= hi
    ensures SumAges(ps) <= |ps| * hi
  {
    if ps != [] {
      var init := ps[..|ps| - 1];
      assert forall i :: 0 <= i < |init| ==> init[i] == ps[i];
      SumAgesAtMost(init, hi);
      assert |ps| * hi == |init| * hi + hi;
    }
  }

  /** Ages at least `lo` sum to at least `|ps| * lo`. */
  lemma {:induction false} SumAgesAtLeast(ps: seq<Patient>, lo: int)
    requires forall i :: 0 <= i < |ps| ==> lo <= ps[i].age
    ensures |ps| * lo <= SumAges(ps)
  {
    if ps != [] {
      var init := ps[..|ps| - 1];
      assert forall i :: 0 <= i < |init| ==> init[i] == ps[i];
      SumAgesAtLeast(init, lo);
      assert |ps| * lo == |init| * lo + lo;
    }
  }

  /** A sum at most `n * m` averages to at most `m`. */
  lemma MeanAtMost(sum: int, n: nat, m: int)
    requires n > 0 && sum <= n * m
    ensures sum as real / n as real <= m as real
  {
    var q := sum as real / n as real;
    assert q * n as real == sum as real;
    assert (m as real - q) * n as real == (n * m - sum) as real;
  }

  /** A sum at least `n * m` averages to at least `m`. */
  lemma MeanAtLeast(sum: int, n: nat, m: int)
    requires n > 0 && n * m <= sum
    ensures m as real <= sum as real / n as real
  {
    var q := sum as real / n as real;
    assert q * n as real == sum as real;
    assert (q - m as real) * n as real == (sum - n * m) as real;
  }

  /** The report's average never exceeds its maximum, and when no age is 0 it
      is at least its minimum. */
  lemma AverageWithinAgeRange(ps: seq<Patient>)
    requires ps != []
    ensures SumAges(ps) as real / |ps| as real <= MaxAge(ps) as real
    ensures (forall i :: 0 <= i < |ps| ==> ps[i].age != 0) ==>
              RunningMin(ps) as real <= SumAges(ps) as real / |ps| as real
  {
    SumAgesAtMost(ps, MaxAge(ps));
    MeanAtMost(SumAges(ps), |ps|, MaxAge(ps));
    if forall i :: 0 <= i < |ps| ==> ps[i].age != 0 {
      RunningMinIsMinimum(ps);
      SumAgesAtLeast(ps, RunningMin(ps));
      MeanAtLeast(SumAges(ps), |ps|, RunningMin(ps));
    }
  }

  /** The ages of the roster, in roster order. */
  function Ages(ps: seq<Patient>): seq<int> {
    seq(|ps|, i requires 0 <= i < |ps| => ps[i].age)
  }

  /** The four accumulators of section 1 after the first `k` patients. */
  ghost predicate AgeFolds(ps: seq<Patient>, k: nat, ages: seq<int>, sum: int, max: int, min: int)
    requires k <= |ps|
  {
    ages == Ages(ps[..k]) && sum == SumAges(ps[..k]) && max == MaxAge(ps[..k]) && min == RunningMin(ps[..k])
  }

  /** One more patient advances each accumulator as the view's loop body
      (views.py:208-217) does: append the age, add it, raise the maximum, and
      lower (or set, when 0) the minimum. */
  lemma AgeStep(ps: seq<Patient>, k: nat, ages: seq<int>, sum: int, max: int, min: int)
    requires k < |ps| && AgeFolds(ps, k, ages, sum, max, min)
    ensures var x := ps[k].age;
      AgeFolds(ps, k + 1, ages + [x], sum + x,
               if x > max then x else max,
               if min == 0 then x else if x < min then x else min)
  {
    assert ps[..k + 1][..k] == ps[..k];
  }

  /** Section 1 of the report: one pass accumulating the list of ages, their
      sum, the running maximum and the running minimum. */
  method AgeStatistics(ps: seq<Patient>) returns (ages: seq<int>, sum: int, max: int, min: int)
    ensures |ages| == |ps| && forall i :: 0 <= i < |ps| ==> ages[i] == ps[i].age
    ensures sum == SumAges(ps)
    ensures max == MaxAge(ps)
    ensures min == RunningMin(ps)
  {
    ages, sum, max, min := [], 0, 0, 0;
    for k := 0 to |ps|
      invariant AgeFolds(ps, k, ages, sum, max, min)
    {
      var x := ps[k];
      AgeStep(ps, k, ages, sum, max, min);
      ages := ages + [x.age];
      sum := sum + x.age;
      if x.age > max {
        max := x.age;
      }
      if min == 0 {
        min := x.age;
      } else if x.age < min {
        min := x.age;
      }
    }
    assert ps[..|ps|] == ps;
  }

  // Section 2: diagnosis frequency table.

  /** The stripped, non-empty segments of a split diagnoses field, in order. */
  function KeptTokens(segments: seq<string>): (ts: seq<string>)
    ensures |ts| <= |segments|
  {
    if segments == [] then []
    else
      var z := Strip(segments[|segments| - 1]);
      KeptTokens(segments[..|segments| - 1]) + (if z != "" then [z] else [])
  }

  /** Every kept token is non-empty and already stripped. */
  lemma {:induction false} KeptTokensClean(segments: seq<string>)
    ensures forall i :: 0 <= i < |KeptTokens(segments)| ==> Clean(KeptTokens(segments)[i])
  {
    if segments != [] {
      KeptTokensClean(segments[..|segments| - 1]);
      StripIdempotent(segments[|segments| - 1]);
    }
  }

  /** The diagnoses a patient contributes to the table: none for an empty
      field, otherwise every stripped non-empty comma-separated segment. */
  function DiagnosisTokens(diagnoses: string): (ts: seq<string>)
    ensures |ts| <= SegmentCount(diagnoses)
  {
    if diagnoses == "" then [] else KeptTokens(Split(diagnoses, ','))
  }

  /** Every diagnosis occurrence of the roster, patient by patient. */
  function RosterTokens(ps: seq<Patient>): seq<string> {
    if ps == [] then [] else RosterTokens(ps[..|ps| - 1]) + DiagnosisTokens(ps[|ps| - 1].diagnoses)
  }

  /** A diagnosis as it can appear in the table: non-empty and stripped. */
  predicate Clean(z: string) {
    z != "" && Strip(z) == z
  }

  /** Every diagnosis occurrence of the roster is non-empty and stripped. */
  lemma {:induction false} RosterTokensClean(ps: seq<Patient>)
    ensures forall i :: 0 <= i < |RosterTokens(ps)| ==> Clean(RosterTokens(ps)[i])
  {
    if ps != [] {
      RosterTokensClean(ps[..|ps| - 1]);
      var d := ps[|ps| - 1].diagnoses;
      if d != "" {
        KeptTokensClean(Split(d, ','));
      }
    }
  }

  /** `d` maps each token of `ts` to its number of occurrences and holds no other key. */
  ghost predicate Tally(d: map<string, nat>, ts: seq<string>) {
    forall z :: (z in d <==> multiset(ts)[z] > 0) && (z in d ==> d[z] == multiset(ts)[z])
  }

  /** Counting one more occurrence of `z` keeps the table exact. */
  lemma TallyAdd(d: map<string, nat>, done: seq<string>, kept: seq<string>, z: string)
    requires Tally(d, done + kept)
    ensures Tally(d[z := if z in d then d[z] + 1 else 1], done + (kept + [z]))
  {
    assert done + (kept + [z]) == (done + kept) + [z];
    assert multiset(done + (kept + [z])) == multiset(done + kept) + multiset{z};
  }

  /** Every key of a table of stripped, non-empty tokens is one. */
  lemma TallyKeys(d: map<string, nat>, ts: seq<string>)
    requires Tally(d, ts)
    requires forall i :: 0 <= i < |ts| ==> Clean(ts[i])
    ensures forall z :: z in d ==> Clean(z)
  {
    forall z | z in d ensures Clean(z) {
      assert z in multiset(ts);
      var k :| 0 <= k < |ts| && ts[k] == z;
    }
  }

  /** The inner loop of section 2: strip each segment of one patient's field
      and count the non-empty ones into `d`. */
  method CountSegments(d0: map<string, nat>, segments: seq<string>, ghost done: seq<string>)
    returns (d: map<string, nat>)
    requires Tally(d0, done)
    ensures Tally(d, done + KeptTokens(segments))
  {
    d := d0;
    assert done + KeptTokens(segments[..0]) == done;
    for j := 0 to |segments|
      invariant Tally(d, done + KeptTokens(segments[..j]))
    {
      var z := Strip(segments[j]);
      assert segments[..j + 1][..j] == segments[..j];
      ghost var kept := KeptTokens(segments[..j]);
      assert KeptTokens(segments[..j + 1]) == kept + (if z != "" then [z] else []);
      if z != "" {
        TallyAdd(d, done, kept, z);
        if z in d {
          d := d[z := d[z] + 1];
        } else {
          d := d[z := 1];
        }
      } else {
        assert kept + [] == kept;
      }
    }
    assert segments[..|segments|] == segments;
  }

  /** Section 2 of the report: for each patient with a non-empty field, split
      on commas, strip each segment and count each non-empty one. */
  method DiagnosisTable(ps: seq<Patient>) returns (d: map<string, nat>)
    ensures Tally(d, RosterTokens(ps))
    ensures forall z :: z in d ==> Clean(z)
  {
    d := map[];
    for i := 0 to |ps|
      invariant Tally(d, RosterTokens(ps[..i]))
    {
      var x := ps[i];
      ghost var before := RosterTokens(ps[..i]);
      assert ps[..i + 1][..i] == ps[..i];
      assert RosterTokens(ps[..i + 1]) == before + DiagnosisTokens(x.diagnoses);
      if x.diagnoses != "" {
        var y := Split(x.diagnoses, ',');
        d := CountSegments(d, y, before);
      } else {
        assert before + [] == before;
      }
    }
    assert ps[..|ps|] == ps;
    RosterTokensClean(ps);
    TallyKeys(d, RosterTokens(ps));
  }

  // Section 3: risk scores.

  /** The segment count the score uses: `len(d.split(','))` for a non-empty
      field, blank segments included, and 0 for an empty one. */
  function SegmentCount(diagnoses: string): (n: nat)
    ensures diagnoses == "" ==> n == 0
    ensures diagnoses != "" ==> n == CountChar(diagnoses, ',') + 1
  {
    if diagnoses == "" then 0 else |Split(diagnoses, ',')|
  }

  /** Points for age: 2 above 65, 3 above 75. */
  function AgePoints(age: int): (pts: nat)
    ensures pts <= 3
    ensures pts == 0 <==> age <= 65
    ensures pts == 3 <==> age > 75
  {
    if age > 75 then 3 else if age > 65 then 2 else 0
  }

  /** Points for `n` segments: `n` above 2, `n + 2` above 4. */
  function CountPoints(n: nat): (pts: nat)
    ensures pts == 0 <==> n <= 2
    ensures pts != 0 ==> n <= pts <= n + 2
    ensures pts == n + 2 <==> n > 4
  {
    if n > 4 then n + 2 else if n > 2 then n else 0
  }

  /** A patient's risk score: age points plus segment-count points. */
  function RiskScore(p: Patient): (score: nat)
    ensures score == 0 <==> p.age <= 65 && SegmentCount(p.diagnoses) <= 2
    ensures SegmentCount(p.diagnoses) > 2 ==> score >= 3
    ensures p.age > 75 && SegmentCount(p.diagnoses) > 4 ==> score == SegmentCount(p.diagnoses) + 5
  {
    AgePoints(p.age) + CountPoints(SegmentCount(p.diagnoses))
  }

  /** The unsorted risk list: one entry per patient, in roster order. */
  function ScoreEntries(ps: seq<Patient>): seq<RiskEntry> {
    seq(|ps|, i requires 0 <= i < |ps| => RiskEntry(ps[i].name, RiskScore(ps[i])))
  }

  /** Section 3 of the report: the cumulative score rule applied to each
      patient, appended in roster order. */
  method RiskScores(ps: seq<Patient>) returns (r: seq<RiskEntry>)
    ensures r == ScoreEntries(ps)
  {
    r := [];
    for k := 0 to |ps|
      invariant |r| == k
      invariant forall i :: 0 <= i < k ==> r[i] == RiskEntry(ps[i].name, RiskScore(ps[i]))
    {
      var x := ps[k];
      var s := 0;
      if x.age > 65 {
        s := s + 2;
      }
      if x.age > 75 {
        s := s + 1;
      }
      if x.diagnoses != "" {
        var n := |Split(x.diagnoses, ',')|;
        if n > 2 {
          s := s + n;
        }
        if n > 4 {
          s := s + 2;
        }
      }
      assert s == RiskScore(x);
      r := r + [RiskEntry(x.name, s)];
    }
  }

  /** The two tokenizations differ only by blank segments: the table keeps at
      most as many tokens as the score counts segments, and exactly as many
      when no segment is blank. */
  lemma {:induction false} KeptTokensCount(segments: seq<string>)
    ensures |KeptTokens(segments)| == |segments| <==> forall i :: 0 <= i < |segments| ==> Strip(segments[i]) != ""
  {
    if segments != [] {
      var n := |segments| - 1;
      var init := segments[..n];
      var z := Strip(segments[n]);
      KeptTokensCount(init);
      assert KeptTokens(segments) == KeptTokens(init) + (if z != "" then [z] else []);
      if z == "" {
        assert |KeptTokens(segments)| < |segments|;
      } else if forall i :: 0 <= i < |init| ==> Strip(init[i]) != "" {
        assert forall i :: 0 <= i < |segments| ==> Strip(segments[i]) != "" by {
          forall i | 0 <= i < |segments| ensures Strip(segments[i]) != "" {
            if i < n {
              assert segments[i] == init[i];
            }
          }
        }
      } else {
        var i :| 0 <= i < |init| && Strip(init[i]) == "";
        assert segments[i] == init[i];
      }
    }
  }

  lemma TokensVersusSegments(diagnoses: string)
    ensures |DiagnosisTokens(diagnoses)| <= SegmentCount(diagnoses)
    ensures diagnoses != "" ==>
      var segments := Split(diagnoses, ',');
      (|DiagnosisTokens(diagnoses)| == |segments| <==> forall i :: 0 <= i < |segments| ==> Strip(segments[i]) != "")
  {
    if diagnoses != "" {
      var segments := Split(diagnoses, ',');
      KeptTokensCount(segments);
      assert DiagnosisTokens(diagnoses) == KeptTokens(segments);
      assert SegmentCount(diagnoses) == |segments|;
      assert |KeptTokens(segments)| == |segments| <==>
        forall i :: 0 <= i < |segments| ==> Strip(segments[i]) != "";
    }
  }

  /** A blank segment between two diagnoses, as in "a,,b": the score counts
      3 segments (and adds 3 points) while the table receives only the two
      stripped diagnoses. */
  lemma BlankSegmentExample(a: string, b: string)
    requires ',' !in a && ',' !in b
    requires Strip(a) != "" && Strip(b) != ""
    ensures SegmentCount(a + [',', ','] + b) == 3
    ensures CountPoints(SegmentCount(a + [',', ','] + b)) == 3
    ensures DiagnosisTokens(a + [',', ','] + b) == [Strip(a), Strip(b)]
  {
    var s := a + [',', ','] + b;
    JoinAroundBlank(a, b);
    SplitJoin([a, "", b], ',');
    assert Split(s, ',') == [a, "", b];
    assert SegmentCount(s) == 3;
    KeptAroundBlank(a, b);
    assert DiagnosisTokens(s) == KeptTokens([a, "", b]);
  }

  lemma KeptAroundBlank(a: string, b: string)
    requires Strip(a) != "" && Strip(b) != ""
    ensures KeptTokens([a, "", b]) == [Strip(a), Strip(b)]
  {
    assert KeptTokens([a]) == [Strip(a)] by {
      assert [a][..0] == [];
    }
    assert KeptTokens([a, ""]) == [Strip(a)] by {
      assert [a, ""][..1] == [a];
      assert Strip("") == "";
    }
    assert [a, "", b][..2] == [a, ""];
  }

  lemma JoinAroundBlank(a: string, b: string)
    ensures Join([a, "", b], ',') == a + [',', ','] + b
  {
    JoinCons(a, ["", b], ',');
    JoinCons("", [b], ',');
    assert [a] + ["", b] == [a, "", b] && [""] + [b] == ["", b];
    assert "" + [','] + b == [','] + b;
    assert a + [','] + ([','] + b) == a + [',', ','] + b;
  }

  /** The score never decreases with age or with the segment count. */
  lemma ScoreMonotone(age1: int, age2: int, n1: nat, n2: nat)
    requires age1 <= age2 && n1 <= n2
    ensures AgePoints(age1) + CountPoints(n1) <= AgePoints(age2) + CountPoints(n2)
  {
  }

  // Sections 4 and 5: ranking and summary.

  /** `r[:3] if len(r) > 3 else r`: the first three entries, or all of them. */
  function TopThree(s: seq<RiskEntry>): (t: seq<RiskEntry>)
    ensures |t| == if |s| < 3 then |s| else 3
    ensures t <= s
  {
    if |s| > 3 then s[..3] else s
  }

  /** The `high_risk` list of a roster. */
  function HighRisk(ps: seq<Patient>): seq<RiskEntry> {
    TopThree(Ranked(ScoreEntries(ps)))
  }

  /** In a sorted list no entry after position `k` outscores one before it. */
  lemma PrefixDominates(ranked: seq<RiskEntry>, k: nat)
    requires SortedDesc(ranked) && k <= |ranked|
    ensures forall e: RiskEntry, i :: e in multiset(ranked[k..]) && 0 <= i < k ==> e.score <= ranked[i].score
  {
    forall e: RiskEntry, i | e in multiset(ranked[k..]) && 0 <= i < k
      ensures e.score <= ranked[i].score
    {
      var j :| 0 <= j < |ranked[k..]| && ranked[k..][j] == e;
      assert ranked[k + j] == e;
    }
  }

  /** A prefix of a descending list is descending, and what it leaves out is
      exactly the rest of the list. */
  lemma PrefixSplit(ranked: seq<RiskEntry>, k: nat)
    requires SortedDesc(ranked) && k <= |ranked|
    ensures SortedDesc(ranked[..k])
    ensures multiset(ranked[..k]) <= multiset(ranked)
    ensures multiset(ranked) - multiset(ranked[..k]) == multiset(ranked[k..])
  {
    assert ranked == ranked[..k] + ranked[k..];
  }

  /** The first three of the ranking of `entries` are sorted, are drawn from
      `entries`, and are outscored by none of the entries left out. */
  lemma TopThreeDominates(entries: seq<RiskEntry>)
    ensures SortedDesc(TopThree(Ranked(entries)))
    ensures multiset(TopThree(Ranked(entries))) <= multiset(entries)
    ensures forall e: RiskEntry, i ::
              e in multiset(entries) - multiset(TopThree(Ranked(entries))) && 0 <= i < |TopThree(Ranked(entries))| ==>
                e.score <= TopThree(Ranked(entries))[i].score
  {
    var ranked := Ranked(entries);
    var h := TopThree(ranked);
    var k := |h|;
    RankedSorted(entries);
    RankedTies(entries);
    TiesArePermutation(ranked, entries);
    assert h == ranked[..k];
    PrefixSplit(ranked, k);
    PrefixDominates(ranked, k);
  }

  /** Within each group of equal scores, the first three of the ranking keep
      the order of `entries`: each group is a prefix of that group in `entries`. */
  lemma TopThreeStable(entries: seq<RiskEntry>)
    ensures forall v :: WithScore(TopThree(Ranked(entries)), v) <= WithScore(entries, v)
  {
    var ranked := Ranked(entries);
    RankedTies(entries);
    forall v ensures WithScore(TopThree(ranked), v) <= WithScore(entries, v) {
      WithScorePrefix(ranked, |TopThree(ranked)|, v);
    }
  }

  /** `high_risk` holds min(3, roster size) entries, in descending score order,
      none outscored by an entry left out of it, and each group of equal scores
      in it is a prefix of that group in roster order. */
  lemma HighRiskIsTopThree(ps: seq<Patient>)
    ensures |HighRisk(ps)| == if |ps| < 3 then |ps| else 3
    ensures SortedDesc(HighRisk(ps))
    ensures multiset(HighRisk(ps)) <= multiset(ScoreEntries(ps))
    ensures forall e: RiskEntry, i ::
              e in multiset(ScoreEntries(ps)) - multiset(HighRisk(ps)) && 0 <= i < |HighRisk(ps)| ==>
                e.score <= HighRisk(ps)[i].score
    ensures forall v :: WithScore(HighRisk(ps), v) <= WithScore(ScoreEntries(ps), v)
  {
    TopThreeDominates(ScoreEntries(ps));
    TopThreeStable(ScoreEntries(ps));
  }

  /** Sections 1 to 5 of the report for one facility's roster, in roster order. */
  method CalculatePatientReport(ps: seq<Patient>) returns (rep: Report)
    ensures rep.total == |ps|
    ensures rep.avg == if |ps| > 0 then SumAges(ps) as real / |ps| as real else 0.0
    ensures rep.max == MaxAge(ps) && rep.min == RunningMin(ps)
    ensures Tally(rep.diagnoses, RosterTokens(ps))
    ensures rep.highRisk == HighRisk(ps)
  {
    var tmp, a, b, c := AgeStatistics(ps);
    var d := DiagnosisTable(ps);
    var r := RiskScores(ps);
    var sorted := new RiskEntry[|r|](i requires 0 <= i < |r| => r[i]);
    assert sorted[..] == r;
    BubbleSort(sorted);
    var avg := 0.0;
    if |tmp| > 0 {
      avg := a as real / |tmp| as real;
    }
    var highRisk := if sorted.Length > 3 then sorted[..3] else sorted[..];
    rep := Report(avg, b, c, d, highRisk, |ps|);
  }
}
