/** The duplicate-run merger, merge_duplicate_subtitles01: consecutive
    cues whose stripped text is equal collapse into one cue running from
    the first one's start to the last one's end. Times are millisecond
    counts. */
module Dedupe {
  import opened Text

  /** A SubRip item: index, start and end time, text. */
  datatype Sub = Sub(index: int, start: int, end: int, text: string)

  /** A cue with its text stripped. */
  function Norm(x: Sub): Sub {
    x.(text := Strip(x.text))
  }

  /** The cues with their texts stripped, which is all the merger ever
      compares or keeps of a text. */
  function Normalize(subs: seq<Sub>): (ns: seq<Sub>)
    ensures |ns| == |subs|
  {
    if subs == [] then [] else Normalize(subs[..|subs| - 1]) + [Norm(subs[|subs| - 1])]
  }

  /** Each normalised cue is the cue with its text stripped. */
  lemma {:induction false} NormalizeAt(subs: seq<Sub>, k: nat)
    requires k < |subs|
    ensures Normalize(subs)[k] == Norm(subs[k])
    ensures IsStripped(Normalize(subs)[k].text)
  {
    if k < |subs| - 1 {
      NormalizeAt(subs[..|subs| - 1], k);
    }
  }

  /** Normalising a prefix gives a prefix. */
  lemma {:induction false} NormalizePrefix(subs: seq<Sub>, m: nat)
    requires m <= |subs|
    ensures Normalize(subs[..m]) == Normalize(subs)[..m]
    decreases |subs|
  {
    if m < |subs| {
      assert subs[..|subs| - 1][..m] == subs[..m];
      NormalizePrefix(subs[..|subs| - 1], m);
    } else {
      assert subs[..m] == subs;
    }
  }

  /** Cue `i` begins a run: it is the first cue, or its text differs from
      the previous cue's. */
  predicate IsRunStart(subs: seq<Sub>, i: nat)
    requires i < |subs|
  {
    i == 0 || subs[i].text != subs[i - 1].text
  }

  /** The merged cue opened by cue `x` after `count` merged cues. */
  function Opened(count: nat, x: Sub): Sub {
    Sub(count + 1, x.start, x.end, x.text)
  }

  /** The merge as a fold over cues with normalised text: a cue whose text
      equals the last merged cue's text extends that cue's end; any other
      cue opens a new merged cue numbered after the ones before it. */
  function Runs(subs: seq<Sub>): (r: seq<Sub>)
    ensures |r| <= |subs|
    ensures subs == [] <==> r == []
    ensures subs != [] ==>
      r[|r| - 1].text == subs[|subs| - 1].text && r[|r| - 1].end == subs[|subs| - 1].end
    ensures forall k :: 0 <= k < |r| ==> r[k].index == k + 1
    ensures forall k :: 0 <= k < |r| - 1 ==> r[k].text != r[k + 1].text
  {
    if subs == [] then []
    else
      var prev := Runs(subs[..|subs| - 1]);
      var x := subs[|subs| - 1];
      if prev != [] && prev[|prev| - 1].text == x.text then
        prev[|prev| - 1 := prev[|prev| - 1].(end := x.end)]
      else
        prev + [Opened(|prev|, x)]
  }

  /** merge_duplicate_subtitles01 on a list of cues. */
  function Collapse(subs: seq<Sub>): seq<Sub> {
    Runs(Normalize(subs))
  }

  /** A cue repeating the last merged text extends the last merged cue. */
  lemma RunsRepeat(p: seq<Sub>, x: Sub, done: seq<Sub>, last: Sub)
    requires p != [] && p[|p| - 1].text == x.text
    requires Runs(p) == done + [last]
    ensures Runs(p + [x]) == done + [last.(end := x.end)]
  {
    var q := p + [x];
    assert q[..|q| - 1] == p && q[|q| - 1] == x;
    var prev := done + [last];
    assert prev[|prev| - 1] == last;
    assert last.text == x.text;
    assert prev[|prev| - 1 := last.(end := x.end)] == done + [last.(end := x.end)];
  }

  /** A cue with new text opens a merged cue. */
  lemma RunsNew(p: seq<Sub>, x: Sub)
    requires p == [] || p[|p| - 1].text != x.text
    ensures Runs(p + [x]) == Runs(p) + [Opened(|Runs(p)|, x)]
  {
    assert (p + [x])[..|p|] == p;
  }

  /** The inner loop's step: cue `j` repeats the text of cue `j - 1`. */
  lemma RunsExtend(ns: seq<Sub>, j: nat, done: seq<Sub>, last: Sub)
    requires 0 < j < |ns| && ns[j - 1].text == ns[j].text
    requires Runs(ns[..j]) == done + [last]
    ensures Runs(ns[..j + 1]) == done + [last.(end := ns[j].end)]
  {
    assert ns[..j + 1] == ns[..j] + [ns[j]];
    RunsRepeat(ns[..j], ns[j], done, last);
  }

  /** The outer loop's step: cue `i` begins a run. */
  lemma RunsBegin(ns: seq<Sub>, i: nat)
    requires i < |ns| && (i == 0 || ns[i].text != ns[i - 1].text)
    ensures Runs(ns[..i + 1]) == Runs(ns[..i]) + [Opened(|Runs(ns[..i])|, ns[i])]
  {
    assert ns[..i + 1] == ns[..i] + [ns[i]];
    RunsNew(ns[..i], ns[i]);
  }

  /** A whole run `ns[i..j]` of equal texts, begun at `i`, adds one merged
      cue spanning from cue `i`'s start to cue `j - 1`'s end. */
  lemma {:induction false} RunsWhole(ns: seq<Sub>, i: nat, j: nat)
    requires i < j <= |ns|
    requires i == 0 || ns[i].text != ns[i - 1].text
    requires forall k :: i <= k < j ==> ns[k].text == ns[i].text
    ensures Runs(ns[..j]) == Runs(ns[..i]) + [Sub(|Runs(ns[..i])| + 1, ns[i].start, ns[j - 1].end, ns[i].text)]
    decreases j
  {
    if j == i + 1 {
      RunsBegin(ns, i);
    } else {
      var done := Runs(ns[..i]);
      var last := Sub(|done| + 1, ns[i].start, ns[j - 2].end, ns[i].text);
      RunsWhole(ns, i, j - 1);
      RunsExtend(ns, j - 1, done, last);
      assert last.(end := ns[j - 1].end) == Sub(|done| + 1, ns[i].start, ns[j - 1].end, ns[i].text);
    }
  }

  /** The inner loop of merge_duplicate_subtitles01, on cues whose text is
      already stripped: from cue `i`, moves `j` past every following cue
      with the same text, keeping the last one's end. */
  method ExtendRun(ns: seq<Sub>, i: nat) returns (j: nat, end: int)
    requires i < |ns|
    ensures i < j <= |ns|
    ensures forall k :: i <= k < j ==> ns[k].text == ns[i].text
    ensures j == |ns| || ns[j].text != ns[i].text
    ensures end == ns[j - 1].end
  {
    var text := ns[i].text;
    end := ns[i].end;
    j := i + 1;
    while j < |ns| && ns[j].text == text
      invariant i < j <= |ns|
      invariant forall k :: i <= k < j ==> ns[k].text == text
      invariant end == ns[j - 1].end
    {
      end := ns[j].end;
      j := j + 1;
    }
  }

  /** Every normalised text is stripped. */
  lemma NormalizeStripped(subs: seq<Sub>)
    ensures forall k :: 0 <= k < |subs| ==> IsStripped(Normalize(subs)[k].text)
  {
    forall k | 0 <= k < |subs| ensures IsStripped(Normalize(subs)[k].text) {
      NormalizeAt(subs, k);
    }
  }

  /** merge_duplicate_subtitles01's loops. The stripped texts the source
      computes at each comparison are computed once up front (strip is
      pure, so the comparisons are the same); the outer loop then starts a
      run at cue `i` and appends one merged cue for it. The merged cues are
      numbered 1..n, carry stripped text, no two neighbours share a text,
      and there are no more of them than input cues. */
  method MergeDuplicates(subs: seq<Sub>) returns (merged: seq<Sub>)
    ensures merged == Collapse(subs)
    ensures |merged| <= |subs|
    ensures forall k :: 0 <= k < |merged| ==> merged[k].index == k + 1 && IsStripped(merged[k].text)
    ensures forall k :: 0 <= k < |merged| - 1 ==> merged[k].text != merged[k + 1].text
  {
    var ns := Normalize(subs);
    merged := [];
    var i := 0;
    while i < |ns|
      invariant 0 <= i <= |ns|
      invariant merged == Runs(ns[..i])
      invariant 0 < i < |ns| ==> ns[i].text != ns[i - 1].text
    {
      var start, text := ns[i].start, ns[i].text;
      var j, end := ExtendRun(ns, i);
      RunsWhole(ns, i, j);
      merged := merged + [Sub(|merged| + 1, start, end, text)];
      i := j;
    }
    assert ns[..|ns|] == ns;
    CollapseStripped(subs);
  }

  /** The positions where runs begin, in increasing order. */
  function RunStarts(ns: seq<Sub>): (s: seq<nat>)
    ensures forall k :: 0 <= k < |s| ==> s[k] < |ns| && IsRunStart(ns, s[k])
    ensures forall k :: 0 <= k < |s| - 1 ==> s[k] < s[k + 1]
    ensures ns != [] ==> s != [] && s[0] == 0
  {
    if ns == [] then []
    else
      var n := |ns|;
      var prev := RunStarts(ns[..n - 1]);
      RunStartPrefix(ns, n - 1);
      if IsRunStart(ns, n - 1) then prev + [n - 1] else prev
  }

  /** Whether a cue begins a run does not depend on the cues after it. */
  lemma RunStartPrefix(ns: seq<Sub>, m: nat)
    requires m <= |ns|
    ensures forall i :: 0 <= i < m ==> (IsRunStart(ns[..m], i) <==> IsRunStart(ns, i))
  {
  }

  /** Where the `k`-th run ends (exclusive): the next run's start, or the
      end of the input for the last run. */
  function RunEnd(ns: seq<Sub>, k: nat): (e: nat)
    requires k < |RunStarts(ns)|
    ensures RunStarts(ns)[k] < e <= |ns|
  {
    var s := RunStarts(ns);
    if k + 1 < |s| then s[k + 1] else |ns|
  }

  /** The merged cue of the `k`-th run: numbered k + 1, from the run's
      first cue's start to its last cue's end, with the run's text. */
  function RunCue(ns: seq<Sub>, k: nat): Sub
    requires k < |RunStarts(ns)|
  {
    var first := RunStarts(ns)[k];
    Sub(k + 1, ns[first].start, ns[RunEnd(ns, k) - 1].end, ns[first].text)
  }

  /** One merged cue per run, each spanning its run. */
  ghost predicate SpansRuns(ns: seq<Sub>, r: seq<Sub>) {
    |r| == |RunStarts(ns)| && forall k :: 0 <= k < |r| ==> r[k] == RunCue(ns, k)
  }

  /** Run starts of a longer input, from those of the input without its
      last cue. */
  lemma RunStartsSnoc(ns: seq<Sub>)
    requires ns != []
    ensures RunStarts(ns) == if IsRunStart(ns, |ns| - 1) then RunStarts(ns[..|ns| - 1]) + [|ns| - 1]
                             else RunStarts(ns[..|ns| - 1])
  {
  }

  /** A run that is not the last keeps its merged cue when a cue is added. */
  lemma RunCueKept(ns: seq<Sub>, k: nat)
    requires ns != []
    requires k < |RunStarts(ns[..|ns| - 1])|
    requires IsRunStart(ns, |ns| - 1) || k + 1 < |RunStarts(ns[..|ns| - 1])|
    ensures k < |RunStarts(ns)|
    ensures RunCue(ns, k) == RunCue(ns[..|ns| - 1], k)
  {
    var p := ns[..|ns| - 1];
    RunStartsSnoc(ns);
    var sp, s := RunStarts(p), RunStarts(ns);
    assert s[k] == sp[k];
    assert RunEnd(ns, k) == RunEnd(p, k);
    assert p[sp[k]] == ns[sp[k]] && p[RunEnd(p, k) - 1] == ns[RunEnd(p, k) - 1];
  }

  /** A cue beginning a run gives the newest merged cue. */
  lemma RunCueOpened(ns: seq<Sub>)
    requires ns != [] && IsRunStart(ns, |ns| - 1)
    ensures |RunStarts(ns)| == |RunStarts(ns[..|ns| - 1])| + 1
    ensures RunCue(ns, |RunStarts(ns)| - 1) == Opened(|RunStarts(ns[..|ns| - 1])|, ns[|ns| - 1])
  {
    RunStartsSnoc(ns);
  }

  /** A cue repeating the last text extends the last run's merged cue. */
  lemma RunCueExtended(ns: seq<Sub>)
    requires ns != [] && !IsRunStart(ns, |ns| - 1)
    ensures |RunStarts(ns)| == |RunStarts(ns[..|ns| - 1])| > 0
    ensures var k := |RunStarts(ns)| - 1;
            RunCue(ns, k) == RunCue(ns[..|ns| - 1], k).(end := ns[|ns| - 1].end)
  {
    var p := ns[..|ns| - 1];
    RunStartsSnoc(ns);
    var k := |RunStarts(ns)| - 1;
    assert RunStarts(ns)[k] == RunStarts(p)[k];
    assert p[RunStarts(p)[k]] == ns[RunStarts(p)[k]];
  }

  /** The inductive step when the last cue begins a run. */
  lemma SpansNew(ns: seq<Sub>, r: seq<Sub>)
    requires ns != [] && IsRunStart(ns, |ns| - 1)
    requires SpansRuns(ns[..|ns| - 1], r)
    ensures SpansRuns(ns, r + [Opened(|r|, ns[|ns| - 1])])
  {
    RunCueOpened(ns);
    var r' := r + [Opened(|r|, ns[|ns| - 1])];
    forall k | 0 <= k < |r'| ensures r'[k] == RunCue(ns, k) {
      if k < |r| {
        RunCueKept(ns, k);
      }
    }
  }

  /** The inductive step when the last cue repeats the previous text. */
  lemma SpansSame(ns: seq<Sub>, r: seq<Sub>)
    requires ns != [] && !IsRunStart(ns, |ns| - 1)
    requires SpansRuns(ns[..|ns| - 1], r)
    ensures r != []
    ensures SpansRuns(ns, r[|r| - 1 := r[|r| - 1].(end := ns[|ns| - 1].end)])
  {
    RunCueExtended(ns);
    var r' := r[|r| - 1 := r[|r| - 1].(end := ns[|ns| - 1].end)];
    forall k | 0 <= k < |r'| ensures r'[k] == RunCue(ns, k) {
      if k < |r| - 1 {
        RunCueKept(ns, k);
      }
    }
  }

  /** The fold agrees with the run-by-run description: one merged cue per
      run of equal texts, numbered in order, from the run's first start to
      its last end. */
  lemma {:induction false} RunsSpan(ns: seq<Sub>)
    ensures SpansRuns(ns, Runs(ns))
    decreases |ns|
  {
    if ns != [] {
      var n := |ns|;
      var p, x := ns[..n - 1], ns[n - 1];
      var r := Runs(p);
      RunsSpan(p);
      assert p != [] ==> p[n - 2] == ns[n - 2];
      if IsRunStart(ns, n - 1) {
        SpansNew(ns, r);
      } else {
        SpansSame(ns, r);
      }
    }
  }

  /** Every run start is listed. */
  lemma {:induction false} RunStartsComplete(ns: seq<Sub>, i: nat)
    requires i < |ns| && IsRunStart(ns, i)
    ensures i in RunStarts(ns)
    decreases |ns|
  {
    RunStartsSnoc(ns);
    if i < |ns| - 1 {
      RunStartPrefix(ns, |ns| - 1);
      RunStartsComplete(ns[..|ns| - 1], i);
    }
  }

  /** Run starts are listed in increasing order. */
  lemma {:induction false} RunStartsSorted(ns: seq<Sub>, a: nat, b: nat)
    requires a < b < |RunStarts(ns)|
    ensures RunStarts(ns)[a] < RunStarts(ns)[b]
    decreases b
  {
    if a < b - 1 {
      RunStartsSorted(ns, a, b - 1);
    }
  }

  /** No cue strictly inside a run begins a run. */
  lemma RunInside(ns: seq<Sub>, k: nat, i: nat)
    requires k < |RunStarts(ns)|
    requires RunStarts(ns)[k] < i < RunEnd(ns, k)
    ensures !IsRunStart(ns, i)
  {
    var s := RunStarts(ns);
    if IsRunStart(ns, i) {
      RunStartsComplete(ns, i);
      var j :| 0 <= j < |s| && s[j] == i;
      if j < k {
        RunStartsSorted(ns, j, k);
      } else if j > k + 1 {
        RunStartsSorted(ns, k + 1, j);
      }
    }
  }

  /** Every cue of a run has the run's text. */
  lemma {:induction false} RunUniform(ns: seq<Sub>, k: nat, i: nat)
    requires k < |RunStarts(ns)|
    requires RunStarts(ns)[k] <= i < RunEnd(ns, k)
    ensures ns[i].text == ns[RunStarts(ns)[k]].text
    decreases i
  {
    if RunStarts(ns)[k] < i {
      RunInside(ns, k, i);
      RunUniform(ns, k, i - 1);
    }
  }

  /** The k-th merged cue covers a maximal run of equal texts. */
  lemma RunsCue(ns: seq<Sub>, k: nat)
    requires k < |Runs(ns)|
    ensures k < |RunStarts(ns)|
    ensures var first, stop := RunStarts(ns)[k], RunEnd(ns, k);
            && Runs(ns)[k] == Sub(k + 1, ns[first].start, ns[stop - 1].end, ns[first].text)
            && (forall i :: first <= i < stop ==> ns[i].text == ns[first].text)
            && (first == 0 || ns[first - 1].text != ns[first].text)
            && (stop == |ns| || ns[stop].text != ns[first].text)
  {
    RunsSpan(ns);
    var first, stop := RunStarts(ns)[k], RunEnd(ns, k);
    forall i | first <= i < stop ensures ns[i].text == ns[first].text {
      RunUniform(ns, k, i);
    }
    if stop < |ns| {
      RunUniform(ns, k, stop - 1);
      assert IsRunStart(ns, stop);
    }
  }

  /** A run's merged cue, from the run's first and last cues. */
  lemma RunsCueSpan(ns: seq<Sub>, k: nat)
    requires k < |Runs(ns)|
    ensures k < |RunStarts(ns)| && RunStarts(ns)[k] < RunEnd(ns, k) <= |ns|
    ensures var first, stop := RunStarts(ns)[k], RunEnd(ns, k);
            Runs(ns)[k] == Sub(k + 1, ns[first].start, ns[stop - 1].end, ns[first].text)
  {
    RunsCue(ns, k);
    RunsSpan(ns);
  }

  /** The cue before a run's first cue has another text. */
  lemma RunsCueBefore(ns: seq<Sub>, k: nat)
    requires k < |Runs(ns)|
    ensures k < |RunStarts(ns)| && RunStarts(ns)[k] < |ns|
    ensures var first := RunStarts(ns)[k];
            first == 0 || ns[first - 1].text != ns[first].text
  {
    RunsCue(ns, k);
  }

  /** Two input cues with the same stripped text, in the same run. */
  lemma NormalizeSameText(subs: seq<Sub>, i: nat, j: nat)
    requires i < |subs| && j < |subs|
    ensures Normalize(subs)[i].text == Normalize(subs)[j].text <==> Strip(subs[i].text) == Strip(subs[j].text)
  {
    NormalizeAt(subs, i);
    NormalizeAt(subs, j);
  }

  /** Cues whose normalised texts agree over a range agree once stripped. */
  lemma StrippedRun(subs: seq<Sub>, first: nat, stop: nat)
    requires first < stop <= |subs|
    requires forall i :: first <= i < stop ==> Normalize(subs)[i].text == Normalize(subs)[first].text
    ensures forall i :: first <= i < stop ==> Strip(subs[i].text) == Strip(subs[first].text)
  {
    forall i | first <= i < stop ensures Strip(subs[i].text) == Strip(subs[first].text) {
      NormalizeSameText(subs, i, first);
    }
  }

  /** The k-th merged cue's fields, from its run's first and last cues. */
  lemma CollapseCueFields(subs: seq<Sub>, k: nat)
    requires k < |Collapse(subs)|
    ensures k < |RunStarts(Normalize(subs))|
    ensures var first, stop := RunStarts(Normalize(subs))[k], RunEnd(Normalize(subs), k);
            Collapse(subs)[k] == Sub(k + 1, subs[first].start, subs[stop - 1].end, Strip(subs[first].text))
  {
    var ns := Normalize(subs);
    RunsCueSpan(ns, k);
    var first, stop := RunStarts(ns)[k], RunEnd(ns, k);
    NormalizeAt(subs, first);
    NormalizeAt(subs, stop - 1);
    assert ns[first] == Norm(subs[first]) && ns[stop - 1] == Norm(subs[stop - 1]);
  }

  /** Every cue of the k-th run has the same stripped text. */
  lemma CollapseRunUniform(subs: seq<Sub>, k: nat)
    requires k < |Collapse(subs)|
    ensures k < |RunStarts(Normalize(subs))|
    ensures var first, stop := RunStarts(Normalize(subs))[k], RunEnd(Normalize(subs), k);
            forall i :: first <= i < stop ==> Strip(subs[i].text) == Strip(subs[first].text)
  {
    var ns := Normalize(subs);
    RunsCue(ns, k);
    StrippedRun(subs, RunStarts(ns)[k], RunEnd(ns, k));
  }

  /** The cue before the k-th run has a different stripped text. */
  lemma CollapseRunBefore(subs: seq<Sub>, k: nat)
    requires k < |Collapse(subs)|
    ensures k < |RunStarts(Normalize(subs))|
    ensures var first := RunStarts(Normalize(subs))[k];
            first == 0 || Strip(subs[first - 1].text) != Strip(subs[first].text)
  {
    var ns := Normalize(subs);
    assert Collapse(subs) == Runs(ns) && |ns| == |subs|;
    RunsCueBefore(ns, k);
    var first := RunStarts(ns)[k];
    if first > 0 {
      NormalizeSameText(subs, first - 1, first);
    }
  }

  /** The cue after the k-th run has a different stripped text. */
  lemma CollapseRunAfter(subs: seq<Sub>, k: nat)
    requires k < |Collapse(subs)|
    ensures k < |RunStarts(Normalize(subs))|
    ensures var first, stop := RunStarts(Normalize(subs))[k], RunEnd(Normalize(subs), k);
            stop == |subs| || Strip(subs[stop].text) != Strip(subs[first].text)
  {
    var ns := Normalize(subs);
    RunsCue(ns, k);
    var first, stop := RunStarts(ns)[k], RunEnd(ns, k);
    if stop < |subs| {
      NormalizeSameText(subs, stop, first);
    }
  }

  /** merge_duplicate_subtitles01 cue by cue: the k-th merged cue is
      numbered k + 1 and covers a maximal run of input cues whose stripped
      texts are all equal, from the run's first start to its last end,
      carrying that stripped text; equal texts that are not adjacent stay
      in separate merged cues. */
  lemma CollapseCue(subs: seq<Sub>, k: nat)
    requires k < |Collapse(subs)|
    ensures k < |RunStarts(Normalize(subs))|
    ensures var first, stop := RunStarts(Normalize(subs))[k], RunEnd(Normalize(subs), k);
            && Collapse(subs)[k] == Sub(k + 1, subs[first].start, subs[stop - 1].end, Strip(subs[first].text))
            && (forall i :: first <= i < stop ==> Strip(subs[i].text) == Strip(subs[first].text))
            && (first == 0 || Strip(subs[first - 1].text) != Strip(subs[first].text))
            && (stop == |subs| || Strip(subs[stop].text) != Strip(subs[first].text))
  {
    CollapseCueFields(subs, k);
    CollapseRunUniform(subs, k);
    CollapseRunBefore(subs, k);
    CollapseRunAfter(subs, k);
  }

  /** Cues whose texts are already stripped are left as they are. */
  lemma {:induction false} NormalizeFixed(subs: seq<Sub>)
    requires forall k :: 0 <= k < |subs| ==> IsStripped(subs[k].text)
    ensures Normalize(subs) == subs
    decreases |subs|
  {
    if subs != [] {
      var p, x := subs[..|subs| - 1], subs[|subs| - 1];
      NormalizeFixed(p);
      StripStripped(x.text);
      assert Norm(x) == x;
      assert p + [x] == subs;
    }
  }

  /** Cues numbered 1..n with no two neighbours sharing a text are
      already merged. */
  lemma {:induction false} RunsFixed(r: seq<Sub>)
    requires forall k :: 0 <= k < |r| ==> r[k].index == k + 1
    requires forall k :: 0 <= k < |r| - 1 ==> r[k].text != r[k + 1].text
    ensures Runs(r) == r
    decreases |r|
  {
    if r != [] {
      var p, x := r[..|r| - 1], r[|r| - 1];
      forall k | 0 <= k < |p| ensures p[k].index == k + 1 {
        assert p[k] == r[k];
      }
      forall k | 0 <= k < |p| - 1 ensures p[k].text != p[k + 1].text {
        assert p[k] == r[k] && p[k + 1] == r[k + 1];
      }
      RunsFixed(p);
      if p != [] {
        assert p[|p| - 1] == r[|r| - 2];
        assert r[|r| - 2].text != r[|r| - 1].text;
      }
      RunsNew(p, x);
      assert Opened(|p|, x) == x;
      assert p + [x] == r;
    }
  }

  /** Every merged text is a stripped text. */
  lemma CollapseStripped(subs: seq<Sub>)
    ensures forall k :: 0 <= k < |Collapse(subs)| ==> IsStripped(Collapse(subs)[k].text)
  {
    var ns := Normalize(subs);
    var r := Runs(ns);
    assert Collapse(subs) == r;
    forall k | 0 <= k < |r| ensures IsStripped(r[k].text) {
      RunsCue(ns, k);
      NormalizeAt(subs, RunStarts(ns)[k]);
    }
  }

  /** Merging merged cues again changes nothing. */
  lemma CollapseIdempotent(subs: seq<Sub>)
    ensures Collapse(Collapse(subs)) == Collapse(subs)
  {
    var r := Collapse(subs);
    CollapseStripped(subs);
    NormalizeFixed(r);
    RunsFixed(r);
  }

  /** Two cues with the same text followed by a different one become two
      cues, the first spanning both repeats; whatever the input numbering,
      the output is numbered 1 and 2. */
  lemma RepeatThenNew(x: Sub, y: Sub, z: Sub)
    requires IsStripped(x.text) && IsStripped(z.text)
    requires y.text == x.text && z.text != x.text
    ensures Collapse([x, y, z]) == [Sub(1, x.start, y.end, x.text), Sub(2, z.start, z.end, z.text)]
  {
    var xyz := [x, y, z];
    forall k | 0 <= k < |xyz| ensures IsStripped(xyz[k].text) {
      if k == 0 {} else if k == 1 {} else {}
    }
    NormalizeFixed(xyz);
    RunsThree(x, y, z);
  }

  /** The scenario above on stripped texts. */
  lemma RunsThree(x: Sub, y: Sub, z: Sub)
    requires y.text == x.text && z.text != x.text
    ensures Runs([x, y, z]) == [Sub(1, x.start, y.end, x.text), Sub(2, z.start, z.end, z.text)]
  {
    var m := Sub(1, x.start, y.end, x.text);
    RunsTwo(x, y);
    RunsNew([x, y], z);
    assert [x, y] + [z] == [x, y, z];
    assert [m] + [Opened(1, z)] == [m, Sub(2, z.start, z.end, z.text)];
  }

  /** The first two cues of the scenario above merge. */
  lemma RunsTwo(x: Sub, y: Sub)
    requires y.text == x.text
    ensures Runs([x, y]) == [Sub(1, x.start, y.end, x.text)]
  {
    RunsNew([], x);
    assert [] + [x] == [x];
    RunsRepeat([x], y, [], Opened(0, x));
    assert [x] + [y] == [x, y];
  }

  /** The same text twice with another between stays three cues: only
      adjacent repeats merge. Whatever the input numbering and surrounding
      whitespace, the cues come out numbered 1 to 3 with stripped texts. */
  lemma NotAdjacentKept(x: Sub, y: Sub, z: Sub)
    requires Strip(z.text) == Strip(x.text) && Strip(y.text) != Strip(x.text)
    ensures Collapse([x, y, z]) == [
      Sub(1, x.start, x.end, Strip(x.text)),
      Sub(2, y.start, y.end, Strip(y.text)),
      Sub(3, z.start, z.end, Strip(z.text))]
  {
    NormalizeThree(x, y, z);
    RunsDistinctThree(Norm(x), Norm(y), Norm(z));
  }

  /** Three cues with their texts stripped. */
  lemma NormalizeThree(x: Sub, y: Sub, z: Sub)
    ensures Normalize([x, y, z]) == [Norm(x), Norm(y), Norm(z)]
  {
    var r := [x, y, z];
    var n := Normalize(r);
    NormalizeAt(r, 0);
    NormalizeAt(r, 1);
    NormalizeAt(r, 2);
    assert n[0] == Norm(x) && n[1] == Norm(y) && n[2] == Norm(z);
  }

  /** Three cues, each differing from the one before, each open a cue. */
  lemma RunsDistinctThree(x: Sub, y: Sub, z: Sub)
    requires y.text != x.text && z.text != y.text
    ensures Runs([x, y, z]) == [Opened(0, x), Opened(1, y), Opened(2, z)]
  {
    RunsNew([], x);
    assert [] + [x] == [x];
    RunsNew([x], y);
    assert [x] + [y] == [x, y];
    RunsNew([x, y], z);
    assert [x, y] + [z] == [x, y, z];
  }
}
