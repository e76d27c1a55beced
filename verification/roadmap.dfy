/** The learning roadmap page: step completion and the progress percentage,
    the learning-preference chips, the resource badge colours, and the reset
    of completion flags on a freshly generated roadmap. */
module RoadmapView {
  import opened Options
  import opened Records
  import Seqs

  function Done(s: Step): bool {
    s.completed
  }

  /** Number of completed steps, counted one step at a time. */
  function CountDone(steps: seq<Step>): (r: nat)
    ensures r <= |steps|
  {
    if |steps| == 0 then 0 else (if steps[0].completed then 1 else 0) + CountDone(steps[1..])
  }

  /** The completed steps are all of them exactly when every step is completed. */
  lemma {:induction false} CountDoneAll(steps: seq<Step>)
    ensures CountDone(steps) == |steps| <==> forall i :: 0 <= i < |steps| ==> steps[i].completed
  {
    if |steps| > 0 {
      CountDoneAll(steps[1..]);
      assert forall i :: 1 <= i < |steps| ==> steps[i] == steps[1..][i - 1];
    }
  }

  /** Filtering the completed steps keeps as many steps as `CountDone` counts. */
  lemma {:induction false} FilterDoneCount(steps: seq<Step>)
    ensures |Seqs.Filter(steps, Done)| == CountDone(steps)
  {
    if |steps| > 0 {
      FilterDoneCount(steps[1..]);
    }
  }

  /** `completedSteps`: the steps whose flag is set; no roadmap gives 0. */
  function CompletedSteps(rm: Option<Roadmap>): (r: nat)
    ensures rm.None? ==> r == 0
    ensures rm.Some? ==> r == CountDone(rm.value.steps)
    ensures r <= TotalSteps(rm)
  {
    match rm
    case None => 0
    case Some(m) =>
      FilterDoneCount(m.steps);
      |Seqs.Filter(m.steps, Done)|
  }

  /** `totalSteps`: the number of steps; no roadmap gives 0. */
  function TotalSteps(rm: Option<Roadmap>): nat {
    match rm
    case None => 0
    case Some(m) => |m.steps|
  }

  /** `progress`: the completed share as a whole percentage, rounded half up
      (`Math.round` on the exact quotient); 0 when there is no step. */
  function Progress(rm: Option<Roadmap>): (r: nat)
    ensures r <= 100
    ensures TotalSteps(rm) == 0 ==> r == 0
    ensures TotalSteps(rm) > 0 ==>
      2 * TotalSteps(rm) * r <= 200 * CompletedSteps(rm) + TotalSteps(rm) < 2 * TotalSteps(rm) * (r + 1)
  {
    var c, t := CompletedSteps(rm), TotalSteps(rm);
    if t == 0 then 0 else RoundPercent(c, t)
  }

  /** `Math.round(c / t * 100)` computed exactly: the whole number nearest
      to `100 c / t`, halves rounded up. */
  function RoundPercent(c: nat, t: nat): (r: nat)
    requires 0 < t && c <= t
    ensures r <= 100
    ensures 2 * t * r <= 200 * c + t < 2 * t * (r + 1)
  {
    RoundFacts(c, t);
    (200 * c + t) / (2 * t)
  }

  lemma RoundFacts(c: nat, t: nat)
    requires 0 < t && c <= t
    ensures (200 * c + t) / (2 * t) <= 100
    ensures 2 * t * ((200 * c + t) / (2 * t)) <= 200 * c + t < 2 * t * ((200 * c + t) / (2 * t) + 1)
  {
    var n, d := 200 * c + t, 2 * t;
    var r := n / d;
    DivBounds(n, d);
    if r > 100 {
      MulMono(d, 101, r);
    }
  }

  lemma DivBounds(n: nat, d: nat)
    requires d > 0
    ensures d * (n / d) <= n < d * (n / d + 1)
  {
    assert n == d * (n / d) + n % d;
  }

  lemma MulMono(a: nat, b: int, c: int)
    requires b <= c
    ensures a * b <= a * c
  {
    assert a * c - a * b == a * (c - b);
  }

  /** The quotient is the one whole number whose multiples bracket `n`. */
  lemma DivUnique(n: nat, d: nat, q: int)
    requires d > 0 && d * q <= n < d * (q + 1)
    ensures n / d == q
  {
    DivBounds(n, d);
    var q' := n / d;
    if q' < q {
      MulMono(d, q' + 1, q);
    } else if q' > q {
      MulMono(d, q + 1, q');
    }
  }

  /** With fewer than 200 steps, progress is 100 exactly when every step is completed. */
  lemma ProgressFull(rm: Option<Roadmap>)
    requires rm.Some? && 0 < TotalSteps(rm) < 200
    ensures Progress(rm) == 100 <==> forall i :: 0 <= i < |rm.value.steps| ==> rm.value.steps[i].completed
  {
    var c, t := CompletedSteps(rm), TotalSteps(rm);
    CountDoneAll(rm.value.steps);
    if c == t {
      DivUnique(200 * c + t, 2 * t, 100);
    } else {
      var r := Progress(rm);
      if r >= 100 {
        MulMono(2 * t, 100, r);
        assert false;
      }
    }
  }

  /** With 200 steps of which 199 are completed, the rounded percentage is
      already 100 although one step is open: 99.5 rounds up. */
  lemma ProgressRoundsUp(rm: Option<Roadmap>)
    requires rm.Some? && TotalSteps(rm) == 200 && CompletedSteps(rm) == 199
    ensures Progress(rm) == 100
    ensures exists i :: 0 <= i < |rm.value.steps| && !rm.value.steps[i].completed
  {
    CountDoneAll(rm.value.steps);
    DivUnique(200 * 199 + 200, 400, 100);
  }

  /** `toggleStep(index)`: flip the completion flag of the step at `index` and
      store the roadmap; without a roadmap, or with an index that designates
      no step (where the source throws before storing), nothing changes. */
  function ToggleStep(rm: Option<Roadmap>, index: int): (r: Option<Roadmap>)
    ensures rm.None? || !(0 <= index < |rm.value.steps|) ==> r == rm
    ensures rm.Some? && 0 <= index < |rm.value.steps| ==>
      && r.Some?
      && r.value.(steps := rm.value.steps) == rm.value
      && |r.value.steps| == |rm.value.steps|
      && r.value.steps[index] == rm.value.steps[index].(completed := !rm.value.steps[index].completed)
      && forall j :: 0 <= j < |rm.value.steps| && j != index ==> r.value.steps[j] == rm.value.steps[j]
  {
    match rm
    case None => rm
    case Some(m) =>
      if 0 <= index < |m.steps| then
        var s := m.steps[index];
        Some(m.(steps := m.steps[index := s.(completed := !s.completed)]))
      else rm
  }

  /** Toggling the same step twice gives back the roadmap. */
  lemma ToggleTwice(rm: Option<Roadmap>, index: int)
    ensures ToggleStep(ToggleStep(rm, index), index) == rm
  {
    if rm.Some? && 0 <= index < |rm.value.steps| {
      var m := rm.value;
      var once := ToggleStep(rm, index).value;
      assert once.steps[index := m.steps[index]] == m.steps;
    }
  }

  /** Toggling a step moves the completed count by exactly one, up when the
      step was open and down when it was completed. */
  lemma ToggleCount(rm: Option<Roadmap>, index: int)
    requires rm.Some? && 0 <= index < |rm.value.steps|
    ensures rm.value.steps[index].completed ==> CompletedSteps(ToggleStep(rm, index)) + 1 == CompletedSteps(rm)
    ensures !rm.value.steps[index].completed ==> CompletedSteps(ToggleStep(rm, index)) == CompletedSteps(rm) + 1
  {
    var m := rm.value;
    var s := m.steps[index];
    CountDoneUpdate(m.steps, index, s.(completed := !s.completed));
  }

  /** Replacing one step changes the completed count by the difference of
      the two flags. */
  lemma {:induction false} CountDoneUpdate(steps: seq<Step>, i: nat, s: Step)
    requires i < |steps|
    ensures CountDone(steps[i := s]) + (if steps[i].completed then 1 else 0)
         == CountDone(steps) + (if s.completed then 1 else 0)
  {
    if i > 0 {
      CountDoneUpdate(steps[1..], i - 1, s);
      assert steps[i := s][1..] == steps[1..][i - 1 := s];
    } else {
      assert steps[i := s][1..] == steps[1..];
    }
  }

  /** `clearRoadmap`: the stored roadmap becomes null, and so every count is 0. */
  function ClearRoadmap(rm: Option<Roadmap>): (r: Option<Roadmap>)
    ensures r.None? && TotalSteps(r) == 0 && CompletedSteps(r) == 0 && Progress(r) == 0
  {
    None
  }

  /** `toggleLearningPreference`: a chosen preference is removed (every copy
      of it); any other is appended at the end. */
  function TogglePreference(current: seq<string>, pref: string): (r: seq<string>)
    ensures pref in current ==> pref !in r && |r| < |current|
    ensures pref in current ==> forall i :: 0 <= i < |current| && current[i] != pref ==> current[i] in r
    ensures pref in current ==> forall i :: 0 <= i < |r| ==> r[i] in current
    ensures pref in current ==> Seqs.IsSubseq(r, current)
    ensures pref in current ==> forall p :: multiset(r)[p] == (if p != pref then multiset(current)[p] else 0)
    ensures pref !in current ==> r == current + [pref]
  {
    if pref in current then
      var keep := (p: string) => p != pref;
      Seqs.FilterSubseq(current, keep);
      Seqs.FilterCounts(current, keep);
      var r := Seqs.Filter(current, keep);
      assert |r| < |current| by {
        FilterDrops(current, pref);
      }
      r
    else current + [pref]
  }

  /** Filtering out a present value shortens the list. */
  lemma {:induction false} FilterDrops(s: seq<string>, x: string)
    requires x in s
    ensures |Seqs.Filter(s, (p: string) => p != x)| < |s|
  {
    if s[0] != x {
      FilterDrops(s[1..], x);
    }
  }

  /** Toggling an absent preference on and off again restores the list. */
  lemma ToggleAbsentTwice(current: seq<string>, pref: string)
    requires pref !in current
    ensures TogglePreference(TogglePreference(current, pref), pref) == current
  {
    var keep := (p: string) => p != pref;
    var added := current + [pref];
    assert added == TogglePreference(current, pref);
    assert added[|current|] == pref;
    assert TogglePreference(added, pref) == Seqs.Filter(added, keep);
    Seqs.FilterConcat(current, [pref], keep);
    Seqs.FilterKeepsAll(current, keep);
    assert Seqs.Filter([pref], keep) == [];
  }

  /** `getResourceBadgeColor`: the colour for a resource type, compared after
      lower-casing; an absent or unknown type gets the neutral colour. */
  function BadgeColor(kind: Option<string>): (r: string)
    ensures kind.Some? && LowerAscii(kind.value) == "video" ==> r == "bg-red-500"
    ensures kind.Some? && LowerAscii(kind.value) == "article" ==> r == "bg-blue-500"
    ensures kind.Some? && LowerAscii(kind.value) == "course" ==> r == "bg-purple-500"
    ensures kind.Some? && LowerAscii(kind.value) == "documentation" ==> r == "bg-gray-500"
    ensures r == "bg-slate-500" <==> kind.None? || LowerAscii(kind.value) !in KnownKinds
  {
    if kind.None? then "bg-slate-500"
    else
      var k := LowerAscii(kind.value);
      if k == "video" then "bg-red-500"
      else if k == "article" then "bg-blue-500"
      else if k == "course" then "bg-purple-500"
      else if k == "documentation" then "bg-gray-500"
      else "bg-slate-500"
  }

  const KnownKinds: set<string> := {"video", "article", "course", "documentation"}

  /** Lower-casing of the letters `A`-`Z`; every other character is kept. */
  function LowerAscii(s: string): (r: string)
    ensures |r| == |s|
    ensures forall i :: 0 <= i < |s| ==> r[i] == LowerChar(s[i])
  {
    if |s| == 0 then [] else [LowerChar(s[0])] + LowerAscii(s[1..])
  }

  function LowerChar(c: char): char {
    if 'A' <= c <= 'Z' then (c as int - 'A' as int + 'a' as int) as char else c
  }

  /** The badge colour ignores case: `"Video"` and `"VIDEO"` colour like `"video"`. */
  lemma BadgeIgnoresCase(a: string, b: string)
    requires LowerAscii(a) == LowerAscii(b)
    ensures BadgeColor(Some(a)) == BadgeColor(Some(b))
  {
  }

  /** `"Video"` gets the video colour. */
  lemma BadgeExample()
    ensures BadgeColor(Some("Video")) == "bg-red-500"
  {
    assert LowerAscii("Video") == "video";
  }

  /** The completion reset `generate` applies to the model's steps. */
  function ResetSteps(steps: seq<Step>): (r: seq<Step>)
    ensures |r| == |steps|
    ensures forall i :: 0 <= i < |r| ==> !r[i].completed && r[i].(completed := steps[i].completed) == steps[i]
  {
    if |steps| == 0 then [] else [steps[0].(completed := false)] + ResetSteps(steps[1..])
  }

  /** The roadmap `generate` stores: the model's answer with every step open. */
  function FreshRoadmap(answer: Roadmap): (r: Roadmap)
    ensures r.(steps := answer.steps) == answer
    ensures |r.steps| == |answer.steps|
    ensures forall i :: 0 <= i < |r.steps| ==> !r.steps[i].completed
  {
    answer.(steps := ResetSteps(answer.steps))
  }

  /** A freshly generated roadmap shows no progress. */
  lemma FreshProgress(answer: Roadmap)
    ensures CompletedSteps(Some(FreshRoadmap(answer))) == 0
    ensures Progress(Some(FreshRoadmap(answer))) == 0
  {
    FreshNoneDone(ResetSteps(answer.steps));
    var t := |answer.steps|;
    if t > 0 {
      DivUnique(t, 2 * t, 0);
    }
  }

  lemma {:induction false} FreshNoneDone(steps: seq<Step>)
    requires forall i :: 0 <= i < |steps| ==> !steps[i].completed
    ensures CountDone(steps) == 0
  {
    if |steps| > 0 {
      assert forall i :: 0 <= i < |steps[1..]| ==> steps[1..][i] == steps[i + 1];
      FreshNoneDone(steps[1..]);
    }
  }
}
