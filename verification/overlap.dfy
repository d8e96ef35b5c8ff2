/** The overlap fixer, fix_overlapping_subtitles. The SRT text is read
    line by line into entries by a small state machine; entries are grouped
    by identical timing line (first-seen order, texts concatenated); the
    groups are written back numbered 1..N. */
module Overlap {
  import opened Results
  import opened Text

  /** What marks a timing line: the text `" --> "` anywhere in it. */
  const Arrow: string := " --> "

  /** The entry being built: an index line has been seen, and `timing` is
      the first arrow line after it. The index value itself is never read
      again, so it is not kept. */
  datatype Open = Open(timing: Option<string>, text: seq<string>)

  /** An entry that received a timing line; only these are kept. */
  datatype Entry = Entry(timing: string, text: seq<string>)

  /** The parser's state between lines: finished entries, the entry being
      built (None before the first index line) and the lines skipped with
      a "malformed line" warning. */
  datatype State = State(entries: seq<Entry>, current: Option<Open>, skipped: seq<string>)

  /** The TypeError raised by `'timing' in None` when an arrow line comes
      before any index line. */
  datatype ParseError = ArrowOutsideEntry(line: string)

  /** The parse result: the entries in file order and the skipped lines. */
  datatype Parsed = Parsed(entries: seq<Entry>, skipped: seq<string>)

  const Start: State := State([], None, [])

  /** An index line: after stripping, one or more ASCII digits. */
  predicate IsIndexLine(raw: string) {
    IsDigits(Strip(raw))
  }

  /** An arrow line: after stripping, it contains `" --> "`. */
  predicate IsArrowLine(raw: string) {
    Contains(Strip(raw), Arrow)
  }

  /** Keeps the entry being built when it has a timing line, drops it
      otherwise. */
  function Close(entries: seq<Entry>, current: Option<Open>): seq<Entry> {
    match current
    case Some(Open(Some(t), text)) => entries + [Entry(t, text)]
    case _ => entries
  }

  /** One iteration of the parsing loop, on one raw line. */
  function Step(st: State, raw: string): Result<State, ParseError> {
    var line := Strip(raw);
    if line == [] then Success(st)
    else if IsDigits(line) then
      Success(State(Close(st.entries, st.current), Some(Open(None, [])), st.skipped))
    else if Contains(line, Arrow) && (st.current.None? || st.current.value.timing.None?) then
      if st.current.None? then Failure(ArrowOutsideEntry(line))
      else Success(st.(current := Some(st.current.value.(timing := Some(line)))))
    else if st.current.Some? && st.current.value.timing.Some? then
      Success(st.(current := Some(st.current.value.(text := st.current.value.text + [line]))))
    else
      Success(st.(skipped := st.skipped + [line]))
  }

  /** The parsing loop over the remaining lines. */
  function Feed(st: State, lines: seq<string>): Result<State, ParseError>
    decreases |lines|
  {
    if lines == [] then Success(st)
    else
      var next :- Step(st, lines[0]);
      Feed(next, lines[1..])
  }

  /** The whole parse: the loop, then the last entry is kept if it has a
      timing line. */
  function Parse(lines: seq<string>): Result<Parsed, ParseError> {
    var st :- Feed(Start, lines);
    Success(Parsed(Close(st.entries, st.current), st.skipped))
  }

  /** A stored text line: non-empty, already stripped, and never an index
      line (an all-digit line would have opened a new entry instead). */
  predicate IsTextLine(l: string) {
    l != [] && IsStripped(l) && !IsDigits(l)
  }

  /** A stored timing line: stripped, containing the arrow. */
  predicate IsTimingLine(l: string) {
    IsStripped(l) && Contains(l, Arrow)
  }

  predicate EntryOk(e: Entry) {
    IsTimingLine(e.timing) && forall k :: 0 <= k < |e.text| ==> IsTextLine(e.text[k])
  }

  predicate OpenOk(o: Open) {
    && (o.timing.Some? ==> IsTimingLine(o.timing.value))
    && (o.timing.None? ==> o.text == [])
    && forall k :: 0 <= k < |o.text| ==> IsTextLine(o.text[k])
  }

  predicate StateOk(st: State) {
    && (forall k :: 0 <= k < |st.entries| ==> EntryOk(st.entries[k]))
    && (st.current.Some? ==> OpenOk(st.current.value))
  }

  /** No line break inside a line. */
  predicate OneLine(l: string) {
    '\n' !in l
  }

  predicate AllOneLine(lines: seq<string>) {
    forall i :: 0 <= i < |lines| ==> OneLine(lines[i])
  }

  predicate EntryOneLine(e: Entry) {
    OneLine(e.timing) && AllOneLine(e.text)
  }

  predicate StateOneLine(st: State) {
    && (forall k :: 0 <= k < |st.entries| ==> EntryOneLine(st.entries[k]))
    && (st.current.Some? ==> (st.current.value.timing.Some? ==> OneLine(st.current.value.timing.value))
                             && AllOneLine(st.current.value.text))
  }

  /** A line made of digits holds no arrow, which has spaces. */
  lemma DigitsNoArrow(l: string)
    requires IsDigits(l)
    ensures !Contains(l, Arrow)
  {
    if Contains(l, Arrow) {
      ContainsChars(l, Arrow, ' ');
      assert false;
    }
  }

  /** Stripping cannot introduce a line break. */
  lemma StripOneLine(raw: string)
    requires OneLine(raw)
    ensures OneLine(Strip(raw))
  {
  }

  /** One step keeps the stored lines well formed. */
  lemma StepKeepsOk(st: State, raw: string)
    requires StateOk(st)
    requires Step(st, raw).Success?
    ensures StateOk(Step(st, raw).value)
    ensures StateOneLine(st) && OneLine(raw) ==> StateOneLine(Step(st, raw).value)
  {
    var line := Strip(raw);
    if line != [] && IsDigits(line) {
      DigitsNoArrow(line);
    }
  }

  /** Every entry the parser keeps has a stripped timing line holding the
      arrow, and every text line it stored is non-empty, stripped and not
      all digits; lines without line breaks stay so. */
  lemma {:induction false} FeedKeepsOk(st: State, lines: seq<string>)
    requires StateOk(st)
    requires Feed(st, lines).Success?
    ensures StateOk(Feed(st, lines).value)
    ensures StateOneLine(st) && AllOneLine(lines) ==> StateOneLine(Feed(st, lines).value)
    decreases |lines|
  {
    if lines != [] {
      StepKeepsOk(st, lines[0]);
      FeedKeepsOk(Step(st, lines[0]).value, lines[1..]);
    }
  }

  /** The parse result's entries are well formed: each has a timing line,
      each stored text line is non-empty, stripped and not an index line. */
  lemma ParseEntriesOk(lines: seq<string>)
    requires Parse(lines).Success?
    ensures forall k :: 0 <= k < |Parse(lines).value.entries| ==> EntryOk(Parse(lines).value.entries[k])
    ensures AllOneLine(lines) ==>
      forall k :: 0 <= k < |Parse(lines).value.entries| ==> EntryOneLine(Parse(lines).value.entries[k])
  {
    FeedKeepsOk(Start, lines);
    var st := Feed(Start, lines).value;
    var es := Close(st.entries, st.current);
    assert Parse(lines).value.entries == es;
    forall k | 0 <= k < |es|
      ensures EntryOk(es[k])
      ensures StateOneLine(st) ==> EntryOneLine(es[k])
    {
      if k < |st.entries| {
        assert es[k] == st.entries[k];
      }
    }
  }

  /** Some arrow line comes before every index line: the first line that
      is either kind is an arrow line. */
  ghost predicate ArrowBeforeIndex(lines: seq<string>) {
    exists i :: 0 <= i < |lines| && IsArrowLine(lines[i])
                && forall j :: 0 <= j < i ==> !IsIndexLine(lines[j])
  }

  /** Once an entry has been opened the parser cannot fail any more. */
  lemma {:induction false} FeedOpenSucceeds(st: State, lines: seq<string>)
    requires st.current.Some?
    ensures Feed(st, lines).Success?
    ensures Feed(st, lines).value.current.Some?
    decreases |lines|
  {
    if lines != [] {
      FeedOpenSucceeds(Step(st, lines[0]).value, lines[1..]);
    }
  }

  /** A leading line that is neither kind does not decide whether an
      arrow line comes first. */
  lemma ArrowBeforeIndexTail(lines: seq<string>)
    requires lines != [] && !IsIndexLine(lines[0]) && !IsArrowLine(lines[0])
    ensures ArrowBeforeIndex(lines) <==> ArrowBeforeIndex(lines[1..])
  {
    if ArrowBeforeIndex(lines[1..]) {
      var i :| 0 <= i < |lines[1..]| && IsArrowLine(lines[1..][i])
               && forall j :: 0 <= j < i ==> !IsIndexLine(lines[1..][j]);
      assert IsArrowLine(lines[i + 1]);
      forall j | 0 <= j < i + 1
        ensures !IsIndexLine(lines[j])
      {
        if j > 0 {
          assert lines[j] == lines[1..][j - 1];
        }
      }
    }
    ArrowBeforeIndexFromTail(lines);
  }

  lemma ArrowBeforeIndexFromTail(lines: seq<string>)
    requires lines != [] && !IsIndexLine(lines[0]) && !IsArrowLine(lines[0])
    ensures ArrowBeforeIndex(lines) ==> ArrowBeforeIndex(lines[1..])
  {
    if ArrowBeforeIndex(lines) {
      var i :| 0 <= i < |lines| && IsArrowLine(lines[i])
               && forall j :: 0 <= j < i ==> !IsIndexLine(lines[j]);
      assert IsArrowLine(lines[1..][i - 1]);
      forall j | 0 <= j < i - 1
        ensures !IsIndexLine(lines[1..][j])
      {
        assert lines[1..][j] == lines[j + 1];
      }
    }
  }

  /** Before the first entry, the parser fails exactly when an arrow line
      precedes every index line. */
  lemma {:induction false} FeedFailsIff(st: State, lines: seq<string>)
    requires st.current.None?
    ensures Feed(st, lines).Failure? <==> ArrowBeforeIndex(lines)
    decreases |lines|
  {
    if lines != [] {
      if IsIndexLine(lines[0]) {
        DigitsNoArrow(Strip(lines[0]));
        FeedOpenSucceeds(Step(st, lines[0]).value, lines[1..]);
      } else if IsArrowLine(lines[0]) {
        assert !IsIndexLine(lines[0]);
      } else {
        ArrowBeforeIndexTail(lines);
        FeedFailsIff(Step(st, lines[0]).value, lines[1..]);
      }
    }
  }

  /** The parser fails (the TypeError of `'timing' in None`) exactly when an
      arrow line arrives before any index line has opened an entry. */
  lemma ParseFailsIff(lines: seq<string>)
    ensures Parse(lines).Failure? <==> ArrowBeforeIndex(lines)
  {
    FeedFailsIff(Start, lines);
  }

  /** Running the loop over `a` then `b` is running it over `a + b`. */
  lemma {:induction false} FeedAppend(st: State, a: seq<string>, b: seq<string>)
    ensures Feed(st, a + b) == match Feed(st, a)
                               case Success(mid) => Feed(mid, b)
                               case Failure(e) => Failure(e)
    decreases |a|
  {
    if a != [] {
      assert (a + b)[0] == a[0] && (a + b)[1..] == a[1..] + b;
      match Step(st, a[0])
      case Success(next) => FeedAppend(next, a[1..], b);
      case Failure(_) =>
    } else {
      assert a + b == b;
    }
  }

  /** One step only appends after entries and skipped lines already
      recorded. */
  lemma StepShift(done: seq<Entry>, dropped: seq<string>, st: State, raw: string)
    ensures Step(State(done + st.entries, st.current, dropped + st.skipped), raw).Success?
            == Step(st, raw).Success?
    ensures Step(st, raw).Success? ==>
      var r := Step(st, raw).value;
      Step(State(done + st.entries, st.current, dropped + st.skipped), raw).value
      == State(done + r.entries, r.current, dropped + r.skipped)
  {
    var line := Strip(raw);
    if line == [] {
    } else if IsDigits(line) {
      assert Close(done + st.entries, st.current) == done + Close(st.entries, st.current);
    } else if Contains(line, Arrow) && (st.current.None? || st.current.value.timing.None?) {
    } else if st.current.Some? && st.current.value.timing.Some? {
    } else {
      assert (dropped + st.skipped) + [line] == dropped + (st.skipped + [line]);
    }
  }

  /** Entries and skipped lines already recorded are never touched again:
      the loop only appends after them. */
  lemma {:induction false} FeedShift(done: seq<Entry>, dropped: seq<string>, st: State, lines: seq<string>)
    ensures Feed(State(done + st.entries, st.current, dropped + st.skipped), lines).Success?
            == Feed(st, lines).Success?
    ensures Feed(st, lines).Success? ==>
      var r := Feed(st, lines).value;
      Feed(State(done + st.entries, st.current, dropped + st.skipped), lines).value
      == State(done + r.entries, r.current, dropped + r.skipped)
    decreases |lines|
  {
    if lines != [] {
      StepShift(done, dropped, st, lines[0]);
      if Step(st, lines[0]).Success? {
        FeedShift(done, dropped, Step(st, lines[0]).value, lines[1..]);
      }
    }
  }

  /** The entry being built together with the finished ones. */
  function Closed(st: State): seq<Entry> {
    Close(st.entries, st.current)
  }

  /** An index line finishes the entry being built and opens a new one. */
  lemma StepIndexLine(st: State, raw: string)
    requires IsIndexLine(raw)
    ensures Step(st, raw) == Success(State(Closed(st), Some(Open(None, [])), st.skipped))
  {
  }

  /** Feeding the lines after an index line, from a fresh entry. */
  lemma FeedAfterIndex(st: State, b: seq<string>)
    requires b != [] && IsIndexLine(b[0])
    ensures Feed(st, b).Success? && Feed(Start, b).Success?
    ensures var r := Feed(Start, b).value;
            Feed(st, b).value == State(Closed(st) + r.entries, r.current, st.skipped + r.skipped)
  {
    var begun := State([], Some(Open(None, [])), []);
    StepIndexLine(st, b[0]);
    StepIndexLine(Start, b[0]);
    FeedOpenSucceeds(begun, b[1..]);
    FeedShift(Closed(st), st.skipped, begun, b[1..]);
    assert State(Closed(st) + [], Some(Open(None, [])), st.skipped + [])
           == State(Closed(st), Some(Open(None, [])), st.skipped);
  }

  /** An all-digit line always starts a new entry: whatever came before it
      is finished and nothing after it joins an earlier entry, so the parse
      of `a + b` is the parse of `a` followed by the parse of `b`. */
  lemma ParseAtIndexLine(a: seq<string>, b: seq<string>)
    requires b != [] && IsIndexLine(b[0])
    requires Parse(a).Success?
    ensures Parse(b).Success? && Parse(a + b).Success?
    ensures Parse(a + b).value.entries == Parse(a).value.entries + Parse(b).value.entries
    ensures Parse(a + b).value.skipped == Parse(a).value.skipped + Parse(b).value.skipped
  {
    FeedAppend(Start, a, b);
    var mid := Feed(Start, a).value;
    FeedAfterIndex(mid, b);
    var r := Feed(Start, b).value;
    var whole := Feed(Start, a + b).value;
    assert whole == State(Closed(mid) + r.entries, r.current, mid.skipped + r.skipped);
    assert Parse(a).value == Parsed(Closed(mid), mid.skipped);
    assert Parse(b).value == Parsed(Closed(r), r.skipped);
    assert Parse(a + b).value == Parsed(Closed(whole), whole.skipped);
    assert Closed(whole) == Closed(mid) + Closed(r);
  }

  /** A non-blank line that is neither an index line nor an arrow line,
      arriving while no timed entry is open, is only recorded as skipped. */
  lemma StepSkipsStray(st: State, raw: string)
    requires Strip(raw) != [] && !IsIndexLine(raw) && !IsArrowLine(raw)
    requires st.current.None? || st.current.value.timing.None?
    ensures Step(st, raw) == Success(State(st.entries, st.current, st.skipped + [Strip(raw)]))
  {
  }

  /** The loop from a state, with one more skipped line recorded: the same
      outcome, with that line among the skipped ones. */
  lemma FeedOneMoreSkipped(st: State, line: string, b: seq<string>)
    ensures Feed(State(st.entries, st.current, st.skipped + [line]), b).Success? == Feed(st, b).Success?
    ensures Feed(st, b).Success? ==>
      var r := Feed(st, b).value;
      |st.skipped| <= |r.skipped| &&
      Feed(State(st.entries, st.current, st.skipped + [line]), b).value
      == State(r.entries, r.current, r.skipped[..|st.skipped|] + [line] + r.skipped[|st.skipped|..])
  {
    var base := State([], st.current, []);
    FeedShift(st.entries, st.skipped, base, b);
    FeedShift(st.entries, st.skipped + [line], base, b);
    assert State(st.entries + [], st.current, st.skipped + []) == st;
    assert State(st.entries + [], st.current, (st.skipped + [line]) + [])
           == State(st.entries, st.current, st.skipped + [line]);
    if Feed(base, b).Success? {
      var q := Feed(base, b).value;
      var r := Feed(st, b).value;
      assert r.skipped == st.skipped + q.skipped;
      assert r.skipped[..|st.skipped|] == st.skipped && r.skipped[|st.skipped|..] == q.skipped;
      assert (st.skipped + [line]) + q.skipped == st.skipped + [line] + q.skipped;
    }
  }

  /** A stray line, one that is neither blank, nor an index line, nor an
      arrow line, read while no timed entry is open, changes nothing but
      the skipped lines: parsing `a + [raw] + b` gives the entries of
      parsing `a + b`, with the stripped line recorded as skipped right
      after the lines `a` skipped. */
  lemma ParseSkipsStray(a: seq<string>, raw: string, b: seq<string>)
    requires Feed(Start, a).Success?
    requires Feed(Start, a).value.current.None? || Feed(Start, a).value.current.value.timing.None?
    requires Strip(raw) != [] && !IsIndexLine(raw) && !IsArrowLine(raw)
    ensures Parse(a + [raw] + b).Success? <==> Parse(a + b).Success?
    ensures Parse(a + b).Success? ==>
      var n := |Feed(Start, a).value.skipped|;
      var p := Parse(a + b).value;
      n <= |p.skipped| &&
      Parse(a + [raw] + b).value == Parsed(p.entries, p.skipped[..n] + [Strip(raw)] + p.skipped[n..])
  {
    var mid := Feed(Start, a).value;
    var mid2 := State(mid.entries, mid.current, mid.skipped + [Strip(raw)]);
    assert a + [raw] + b == a + ([raw] + b);
    FeedAppend(Start, a, [raw] + b);
    FeedAppend(Start, a, b);
    StepSkipsStray(mid, raw);
    assert ([raw] + b)[0] == raw && ([raw] + b)[1..] == b;
    assert Feed(Start, a + [raw] + b) == Feed(mid2, b);
    assert Feed(Start, a + b) == Feed(mid, b);
    FeedOneMoreSkipped(mid, Strip(raw), b);
  }

  /** The output record the writer prints: running index, timing line and
      text lines. */
  datatype Cue = Cue(index: nat, timing: string, text: seq<string>)

  /** The entries sharing one timing line, in file order. */
  datatype Group = Group(timing: string, members: seq<Entry>)

  /** The timing lines of some entries. */
  function EntryTimings(es: seq<Entry>): set<string> {
    set k | 0 <= k < |es| :: es[k].timing
  }

  /** The entries of `es` whose timing line is `t`, in order. */
  function WithTiming(es: seq<Entry>, t: string): seq<Entry>
  {
    if es == [] then []
    else
      var prev := WithTiming(es[..|es| - 1], t);
      if es[|es| - 1].timing == t then prev + [es[|es| - 1]] else prev
  }

  /** Position of the first entry with timing line `t`. */
  function FirstAt(es: seq<Entry>, t: string): (i: nat)
    requires t in EntryTimings(es)
    ensures i < |es| && es[i].timing == t
    ensures forall j :: 0 <= j < i ==> es[j].timing != t
  {
    if es[0].timing == t then 0
    else
      assert t in EntryTimings(es[1..]) by {
        var k :| 0 <= k < |es| && es[k].timing == t;
        assert es[1..][k - 1] == es[k];
      }
      1 + FirstAt(es[1..], t)
  }

  /** The groups' timing lines. */
  function GroupTimings(gs: seq<Group>): set<string> {
    set k | 0 <= k < |gs| :: gs[k].timing
  }

  /** Position of the group for timing `t`, or |gs| when there is none yet:
      the `timing not in timing_dict` test. */
  function Slot(gs: seq<Group>, t: string): (k: nat)
    ensures k <= |gs|
    ensures k < |gs| ==> gs[k].timing == t
    ensures k == |gs| <==> t !in GroupTimings(gs)
    ensures forall j :: 0 <= j < k ==> gs[j].timing != t
  {
    if gs == [] then 0
    else if gs[0].timing == t then 0
    else
      assert GroupTimings(gs) == {gs[0].timing} + GroupTimings(gs[1..]) by {
        forall x | x in GroupTimings(gs) ensures x in {gs[0].timing} + GroupTimings(gs[1..]) {
          var k :| 0 <= k < |gs| && gs[k].timing == x;
          if k > 0 { assert gs[1..][k - 1] == gs[k]; }
        }
      }
      1 + Slot(gs[1..], t)
  }

  /** One iteration of the grouping loop: append the entry to the list of
      its timing line, creating the list at the end when it is new. */
  function AddEntry(gs: seq<Group>, e: Entry): seq<Group> {
    var k := Slot(gs, e.timing);
    if k == |gs| then gs + [Group(e.timing, [e])]
    else gs[k := Group(e.timing, gs[k].members + [e])]
  }

  /** Timing lines are pairwise distinct across the groups. */
  predicate DistinctTimings(gs: seq<Group>) {
    forall i, j :: 0 <= i < j < |gs| ==> gs[i].timing != gs[j].timing
  }

  /** The grouping loop over the parsed entries, modelling the insertion
      order of the dictionary: one group per distinct timing line, in order
      of first appearance, each holding exactly the entries with that
      timing line in file order. */
  function GroupByTiming(es: seq<Entry>): (gs: seq<Group>)
    ensures DistinctTimings(gs)
    ensures GroupTimings(gs) == EntryTimings(es)
    ensures forall k :: 0 <= k < |gs| ==> gs[k].members == WithTiming(es, gs[k].timing)
    ensures forall i, j :: 0 <= i < j < |gs| ==> FirstAt(es, gs[i].timing) < FirstAt(es, gs[j].timing)
  {
    if es == [] then []
    else
      var init := es[..|es| - 1];
      var e := es[|es| - 1];
      var prev := GroupByTiming(init);
      assert init + [e] == es;
      AddEntryDistinct(prev, e);
      AddEntryMembers(init, e, prev);
      AddEntryOrder(init, e, prev);
      AddEntry(prev, e)
  }

  /** The set of an entry list's timing lines grows by the new one. */
  lemma EntryTimingsSnoc(init: seq<Entry>, e: Entry)
    ensures EntryTimings(init + [e]) == EntryTimings(init) + {e.timing}
  {
    var es := init + [e];
    forall x | x in EntryTimings(es) ensures x in EntryTimings(init) + {e.timing} {
      var k :| 0 <= k < |es| && es[k].timing == x;
      if k < |init| { assert es[k] == init[k]; }
    }
    forall x | x in EntryTimings(init) ensures x in EntryTimings(es) {
      var k :| 0 <= k < |init| && init[k].timing == x;
      assert es[k] == init[k];
    }
    assert es[|init|] == e;
  }

  /** First appearances in a prefix stay first appearances. */
  lemma FirstAtSnoc(init: seq<Entry>, e: Entry, t: string)
    requires t in EntryTimings(init)
    ensures t in EntryTimings(init + [e])
    ensures FirstAt(init + [e], t) == FirstAt(init, t)
  {
    EntryTimingsSnoc(init, e);
    var es := init + [e];
    var i, j := FirstAt(init, t), FirstAt(es, t);
    assert es[i] == init[i];
  }

  /** A new timing line first appears at the entry that brings it. */
  lemma FirstAtNew(init: seq<Entry>, e: Entry)
    requires e.timing !in EntryTimings(init)
    ensures e.timing in EntryTimings(init + [e])
    ensures FirstAt(init + [e], e.timing) == |init|
  {
    EntryTimingsSnoc(init, e);
    var es := init + [e];
    assert es[|init|] == e;
  }

  /** A step of the grouping loop adds the entry's timing line to the
      groups' timing lines. */
  lemma AddEntryTimings(gs: seq<Group>, e: Entry)
    ensures GroupTimings(AddEntry(gs, e)) == GroupTimings(gs) + {e.timing}
  {
    var r := AddEntry(gs, e);
    var s := Slot(gs, e.timing);
    forall x | x in GroupTimings(r) ensures x in GroupTimings(gs) + {e.timing} {
      var k :| 0 <= k < |r| && r[k].timing == x;
      if k < |gs| && k != s { assert r[k] == gs[k]; }
    }
    forall x | x in GroupTimings(gs) ensures x in GroupTimings(r) {
      var k :| 0 <= k < |gs| && gs[k].timing == x;
      assert r[k].timing == gs[k].timing;
    }
    assert r[s].timing == e.timing;
  }

  /** A step of the grouping loop never creates a second group for a
      timing line. */
  lemma AddEntryDistinct(gs: seq<Group>, e: Entry)
    requires DistinctTimings(gs)
    ensures DistinctTimings(AddEntry(gs, e))
    ensures |AddEntry(gs, e)| >= |gs|
    ensures forall k :: 0 <= k < |gs| ==> AddEntry(gs, e)[k].timing == gs[k].timing
  {
  }

  /** A step of the grouping loop keeps each group equal to the entries
      carrying its timing line. */
  lemma AddEntryMembers(init: seq<Entry>, e: Entry, gs: seq<Group>)
    requires DistinctTimings(gs)
    requires GroupTimings(gs) == EntryTimings(init)
    requires forall k :: 0 <= k < |gs| ==> gs[k].members == WithTiming(init, gs[k].timing)
    ensures forall k :: 0 <= k < |AddEntry(gs, e)| ==>
      AddEntry(gs, e)[k].members == WithTiming(init + [e], AddEntry(gs, e)[k].timing)
  {
    var es := init + [e];
    assert es[..|es| - 1] == init;
    var r := AddEntry(gs, e);
    var s := Slot(gs, e.timing);
    if s == |gs| {
      WithTimingAbsent(init, e.timing);
    }
    forall k | 0 <= k < |r|
      ensures r[k].members == WithTiming(es, r[k].timing)
    {
      if k != s {
        assert r[k] == gs[k];
        assert r[k].timing != e.timing;
        assert WithTiming(es, r[k].timing) == WithTiming(init, r[k].timing);
      } else {
        assert WithTiming(es, e.timing) == WithTiming(init, e.timing) + [e];
      }
    }
  }

  /** A step of the grouping loop keeps the groups in order of the first
      appearance of their timing lines. */
  lemma AddEntryOrder(init: seq<Entry>, e: Entry, gs: seq<Group>)
    requires DistinctTimings(gs)
    requires GroupTimings(gs) == EntryTimings(init)
    requires forall i, j :: 0 <= i < j < |gs| ==> FirstAt(init, gs[i].timing) < FirstAt(init, gs[j].timing)
    ensures GroupTimings(AddEntry(gs, e)) == EntryTimings(init + [e])
    ensures forall i, j :: 0 <= i < j < |AddEntry(gs, e)| ==>
      FirstAt(init + [e], AddEntry(gs, e)[i].timing) < FirstAt(init + [e], AddEntry(gs, e)[j].timing)
  {
    var es := init + [e];
    var r := AddEntry(gs, e);
    AddEntryTimings(gs, e);
    AddEntryDistinct(gs, e);
    EntryTimingsSnoc(init, e);
    forall k | 0 <= k < |gs|
      ensures FirstAt(es, gs[k].timing) == FirstAt(init, gs[k].timing)
      ensures FirstAt(init, gs[k].timing) < |init|
    {
      assert gs[k].timing in GroupTimings(gs);
      FirstAtSnoc(init, e, gs[k].timing);
    }
    if Slot(gs, e.timing) == |gs| {
      FirstAtNew(init, e);
    }
  }

  /** No entry has a timing line that does not occur. */
  lemma {:induction false} WithTimingAbsent(es: seq<Entry>, t: string)
    requires t !in EntryTimings(es)
    ensures WithTiming(es, t) == []
  {
    if es != [] {
      var init := es[..|es| - 1];
      EntryTimingsSnoc(init, es[|es| - 1]);
      assert init + [es[|es| - 1]] == es;
      WithTimingAbsent(init, t);
    }
  }

  /** The text lines of some entries, concatenated in order: the
      `combined_text.extend` loop. */
  function TextOf(es: seq<Entry>): seq<string> {
    if es == [] then [] else TextOf(es[..|es| - 1]) + es[|es| - 1].text
  }

  /** Numbers the groups from `n` on, each cue carrying its group's
      concatenated text. */
  function NumberFrom(gs: seq<Group>, n: nat): (cues: seq<Cue>)
    ensures |cues| == |gs|
    ensures forall k :: 0 <= k < |gs| ==>
      cues[k] == Cue(n + k, gs[k].timing, TextOf(gs[k].members))
  {
    if gs == [] then []
    else [Cue(n, gs[0].timing, TextOf(gs[0].members))] + NumberFrom(gs[1..], n + 1)
  }

  /** The merging stage of the overlap fixer: one cue per distinct timing
      line, in order of first appearance, numbered 1..N, whose text is the
      text of every entry with that timing line, in file order. */
  function MergeEntries(es: seq<Entry>): (cues: seq<Cue>)
    ensures forall k :: 0 <= k < |cues| ==> cues[k].index == k + 1
    ensures forall i, j :: 0 <= i < j < |cues| ==> cues[i].timing != cues[j].timing
    ensures CueTimings(cues) == EntryTimings(es)
    ensures forall k :: 0 <= k < |cues| ==> cues[k].text == TextOf(WithTiming(es, cues[k].timing))
    ensures forall i, j :: 0 <= i < j < |cues| ==> FirstAt(es, cues[i].timing) < FirstAt(es, cues[j].timing)
  {
    var gs := GroupByTiming(es);
    NumberTimings(gs, 1);
    NumberFrom(gs, 1)
  }

  /** The cues' timing lines. */
  function CueTimings(cues: seq<Cue>): set<string> {
    set k | 0 <= k < |cues| :: cues[k].timing
  }

  /** Numbering keeps the groups' timing lines. */
  lemma NumberTimings(gs: seq<Group>, n: nat)
    ensures CueTimings(NumberFrom(gs, n)) == GroupTimings(gs)
  {
    var cues := NumberFrom(gs, n);
    forall x | x in GroupTimings(gs) ensures x in CueTimings(cues) {
      var k :| 0 <= k < |gs| && gs[k].timing == x;
      assert cues[k].timing == x;
    }
  }

  /** The cues of a file read back as entries. */
  function EntriesOf(cues: seq<Cue>): (es: seq<Entry>)
    ensures |es| == |cues|
    ensures forall k :: 0 <= k < |cues| ==> es[k] == Entry(cues[k].timing, cues[k].text)
  {
    if cues == [] then [] else [Entry(cues[0].timing, cues[0].text)] + EntriesOf(cues[1..])
  }

  /** Every text line of some cues, in order. */
  function CueText(cues: seq<Cue>): seq<string> {
    if cues == [] then [] else cues[0].text + CueText(cues[1..])
  }

  /** Every text line of some groups, in group order. */
  function GroupText(gs: seq<Group>): seq<string> {
    if gs == [] then [] else TextOf(gs[0].members) + GroupText(gs[1..])
  }

  lemma {:induction false} GroupTextAppend(a: seq<Group>, b: seq<Group>)
    ensures GroupText(a + b) == GroupText(a) + GroupText(b)
  {
    if a == [] {
      assert a + b == b;
    } else {
      assert (a + b)[1..] == a[1..] + b;
      GroupTextAppend(a[1..], b);
    }
  }

  lemma {:induction false} CueTextNumber(gs: seq<Group>, n: nat)
    ensures CueText(NumberFrom(gs, n)) == GroupText(gs)
  {
    if gs != [] {
      CueTextNumber(gs[1..], n + 1);
    }
  }

  /** Replacing one group changes the groups' text lines by that group's. */
  lemma GroupTextUpdate(gs: seq<Group>, k: nat, g: Group)
    requires k < |gs|
    ensures multiset(GroupText(gs[k := g])) + multiset(TextOf(gs[k].members))
            == multiset(GroupText(gs)) + multiset(TextOf(g.members))
  {
    var a, b := gs[..k], gs[k + 1..];
    assert gs == a + [gs[k]] + b;
    assert gs[k := g] == a + [g] + b;
    GroupTextAppend(a + [gs[k]], b);
    GroupTextAppend(a, [gs[k]]);
    GroupTextAppend(a + [g], b);
    GroupTextAppend(a, [g]);
  }

  /** Multiset sums cancel. */
  lemma Cancel(a: multiset<string>, b: multiset<string>, x: multiset<string>)
    requires a + x == b + x
    ensures a == b
  {
    forall y | y in a + b ensures a[y] == b[y] {
      assert (a + x)[y] == (b + x)[y];
    }
  }

  /** A step of the grouping loop adds the entry's text lines to the lines
      held by the groups. */
  lemma {:induction false} AddEntryText(gs: seq<Group>, e: Entry)
    ensures multiset(GroupText(AddEntry(gs, e))) == multiset(GroupText(gs)) + multiset(e.text)
  {
    if Slot(gs, e.timing) == |gs| {
      AddEntryTextNew(gs, e);
    } else {
      AddEntryTextJoin(gs, e);
    }
  }

  /** An entry with a new timing line opens a group holding its text. */
  lemma {:induction false} AddEntryTextNew(gs: seq<Group>, e: Entry)
    requires Slot(gs, e.timing) == |gs|
    ensures multiset(GroupText(AddEntry(gs, e))) == multiset(GroupText(gs)) + multiset(e.text)
  {
    var g := Group(e.timing, [e]);
    assert AddEntry(gs, e) == gs + [g];
    GroupTextAppend(gs, [g]);
    assert [e][..0] == [] && [g][1..] == [];
    assert GroupText([g]) == TextOf([e]) == e.text;
  }

  /** An entry with a known timing line joins that group's text. */
  lemma {:induction false} AddEntryTextJoin(gs: seq<Group>, e: Entry)
    requires Slot(gs, e.timing) < |gs|
    ensures multiset(GroupText(AddEntry(gs, e))) == multiset(GroupText(gs)) + multiset(e.text)
  {
    var k := Slot(gs, e.timing);
    var ms := gs[k].members + [e];
    assert AddEntry(gs, e) == gs[k := Group(e.timing, ms)];
    assert ms[..|ms| - 1] == gs[k].members && ms[|ms| - 1] == e;
    assert TextOf(ms) == TextOf(gs[k].members) + e.text;
    GroupTextUpdate(gs, k, Group(e.timing, ms));
    var n, o, x := multiset(GroupText(AddEntry(gs, e))), multiset(GroupText(gs)), multiset(TextOf(gs[k].members));
    assert n + x == (o + multiset(e.text)) + x;
    Cancel(n, o + multiset(e.text), x);
  }

  lemma {:induction false} GroupByTimingText(es: seq<Entry>)
    ensures multiset(GroupText(GroupByTiming(es))) == multiset(TextOf(es))
  {
    if es != [] {
      var init := es[..|es| - 1];
      GroupByTimingText(init);
      AddEntryText(GroupByTiming(init), es[|es| - 1]);
    }
  }

  /** Merging loses and invents no text line: the output's text lines are
      a rearrangement of the input's, so their count is preserved. */
  lemma MergeKeepsText(es: seq<Entry>)
    ensures multiset(CueText(MergeEntries(es))) == multiset(TextOf(es))
    ensures |CueText(MergeEntries(es))| == |TextOf(es)|
  {
    CueTextNumber(GroupByTiming(es), 1);
    GroupByTimingText(es);
    assert |CueText(MergeEntries(es))| == |multiset(CueText(MergeEntries(es)))|;
  }

  /** Entries with pairwise distinct timing lines each form a group of
      their own. */
  lemma {:induction false} GroupDistinct(es: seq<Entry>)
    requires forall i, j :: 0 <= i < j < |es| ==> es[i].timing != es[j].timing
    ensures |GroupByTiming(es)| == |es|
    ensures forall k :: 0 <= k < |es| ==> GroupByTiming(es)[k] == Group(es[k].timing, [es[k]])
  {
    if es != [] {
      var init := es[..|es| - 1];
      var e := es[|es| - 1];
      GroupDistinct(init);
      var prev := GroupByTiming(init);
      assert e.timing !in EntryTimings(init);
      assert Slot(prev, e.timing) == |prev|;
    }
  }

  /** Merging what the merge wrote changes nothing: once timing lines are
      distinct and cues numbered 1..N, a second pass is the identity. */
  lemma MergeIdempotent(es: seq<Entry>)
    ensures MergeEntries(EntriesOf(MergeEntries(es))) == MergeEntries(es)
  {
    var cues := MergeEntries(es);
    var again := EntriesOf(cues);
    GroupDistinct(again);
    var gs := GroupByTiming(again);
    forall k | 0 <= k < |gs| ensures TextOf(gs[k].members) == cues[k].text {
      assert [again[k]][..0] == [];
    }
  }

  /** What the writer prints for one cue: index line, timing line, the
      text lines joined by line breaks, then a blank line. */
  function RenderCue(c: Cue): string {
    NatToString(c.index) + "\n" + c.timing + "\n" + Join("\n", c.text) + "\n\n"
  }

  /** The output file's content. */
  function Render(cues: seq<Cue>): string {
    if cues == [] then [] else RenderCue(cues[0]) + Render(cues[1..])
  }

  /** A cue the parser can read back: its timing and text lines are what
      the parser itself stores, each on one line. */
  predicate CueOk(c: Cue) {
    EntryOk(Entry(c.timing, c.text)) && EntryOneLine(Entry(c.timing, c.text))
  }

  /** The lines of one printed cue. */
  function CueLines(c: Cue): seq<string> {
    [NatToString(c.index), c.timing] + Split(Join("\n", c.text), '\n') + [""]
  }

  /** The lines of several printed cues. */
  function AllCueLines(cues: seq<Cue>): seq<string> {
    if cues == [] then [] else CueLines(cues[0]) + AllCueLines(cues[1..])
  }

  /** A text body, a blank line, then more text. */
  lemma BodyLines(body: string, rest: string)
    ensures Split(body + "\n\n" + rest, '\n') == Split(body, '\n') + [""] + Split(rest, '\n')
  {
    var r3 := [] + ['\n'] + rest;
    assert body + "\n\n" + rest == body + ['\n'] + r3;
    SplitConcat([], '\n', rest);
    assert Split([], '\n') == [""];
    SplitConcat(body, '\n', r3);
  }

  /** Two single lines, then more text. */
  lemma HeadLines(idx: string, timing: string, more: string)
    requires OneLine(idx) && OneLine(timing)
    ensures Split(idx + "\n" + timing + "\n" + more, '\n') == [idx, timing] + Split(more, '\n')
  {
    var r1 := timing + ['\n'] + more;
    assert idx + "\n" + timing + "\n" + more == idx + ['\n'] + r1;
    SplitConcat(timing, '\n', more);
    SplitNoSep(timing, '\n');
    SplitConcat(idx, '\n', r1);
    SplitNoSep(idx, '\n');
  }

  /** The line pieces of one printed record followed by more text. */
  lemma RecordLines(idx: string, timing: string, body: string, rest: string)
    requires OneLine(idx) && OneLine(timing)
    ensures Split(idx + "\n" + timing + "\n" + body + "\n\n" + rest, '\n')
            == [idx, timing] + Split(body, '\n') + [""] + Split(rest, '\n')
  {
    var more := body + "\n\n" + rest;
    assert idx + "\n" + timing + "\n" + body + "\n\n" + rest == idx + "\n" + timing + "\n" + more;
    HeadLines(idx, timing, more);
    BodyLines(body, rest);
  }

  lemma RenderCueLines(c: Cue, rest: string)
    requires CueOk(c)
    ensures Split(RenderCue(c) + rest, '\n') == CueLines(c) + Split(rest, '\n')
  {
    var idx := NatToString(c.index);
    assert OneLine(idx);
    RecordLines(idx, c.timing, Join("\n", c.text), rest);
  }

  /** The printed file splits into the cues' lines and a final empty piece
      after the last line break. */
  lemma {:induction false} RenderLines(cues: seq<Cue>)
    requires forall k :: 0 <= k < |cues| ==> CueOk(cues[k])
    ensures Split(Render(cues), '\n') == AllCueLines(cues) + [""]
  {
    if cues != [] {
      RenderLines(cues[1..]);
      RenderCueLines(cues[0], Render(cues[1..]));
    }
  }

  /** Text lines arriving while a timed entry is open are appended to it. */
  lemma {:induction false} FeedText(st: State, t: string, acc: seq<string>, lines: seq<string>)
    requires st.current == Some(Open(Some(t), acc))
    requires forall k :: 0 <= k < |lines| ==> IsTextLine(lines[k])
    ensures Feed(st, lines) == Success(st.(current := Some(Open(Some(t), acc + lines))))
    decreases |lines|
  {
    if lines == [] {
      assert acc + lines == acc;
    } else {
      StripStripped(lines[0]);
      var next := st.(current := Some(Open(Some(t), acc + [lines[0]])));
      assert Step(st, lines[0]) == Success(next);
      FeedText(next, t, acc + [lines[0]], lines[1..]);
      assert acc + [lines[0]] + lines[1..] == acc + lines;
    }
  }

  /** A blank line changes nothing. */
  lemma FeedBlank(st: State)
    ensures Feed(st, [""]) == Success(st)
  {
    assert Strip("") == [];
  }

  /** Feeding one line is one step. */
  lemma FeedOne(st: State, raw: string)
    ensures Feed(st, [raw]) == Step(st, raw)
  {
    assert [raw][1..] == [];
  }

  /** The index and timing lines of a printed cue open a timed entry. */
  lemma FeedCueHead(st: State, c: Cue)
    requires CueOk(c)
    ensures Feed(st, [NatToString(c.index), c.timing])
            == Success(State(Closed(st), Some(Open(Some(c.timing), [])), st.skipped))
  {
    var idx := NatToString(c.index);
    StripStripped(idx);
    var st1 := State(Closed(st), Some(Open(None, [])), st.skipped);
    StepIndexLine(st, idx);
    StripStripped(c.timing);
    if IsDigits(c.timing) {
      DigitsNoArrow(c.timing);
    }
    var st2 := st1.(current := Some(Open(Some(c.timing), [])));
    assert Step(st1, c.timing) == Success(st2);
    FeedOne(st, idx);
    FeedOne(st1, c.timing);
    FeedAppend(st, [idx], [c.timing]);
    assert [idx] + [c.timing] == [idx, c.timing];
  }

  /** The text lines and the blank line of a printed cue fill the open
      entry. */
  lemma FeedCueBody(st: State, c: Cue)
    requires CueOk(c)
    requires st.current == Some(Open(Some(c.timing), []))
    ensures Feed(st, Split(Join("\n", c.text), '\n') + [""])
            == Success(st.(current := Some(Open(Some(c.timing), c.text))))
  {
    var body := Split(Join("\n", c.text), '\n');
    var st3 := st.(current := Some(Open(Some(c.timing), c.text)));
    if c.text == [] {
      assert body == [""];
      FeedBlank(st);
      assert st3 == st;
    } else {
      SplitJoin(c.text, '\n');
      FeedText(st, c.timing, [], body);
      assert [] + c.text == c.text;
    }
    FeedBlank(st3);
    FeedAppend(st, body, [""]);
  }

  /** The parser reads a printed cue back as one finished entry. */
  lemma FeedCue(st: State, c: Cue)
    requires CueOk(c)
    ensures Feed(st, CueLines(c)) == Success(State(Closed(st), Some(Open(Some(c.timing), c.text)), st.skipped))
  {
    var head := [NatToString(c.index), c.timing];
    var body := Split(Join("\n", c.text), '\n') + [""];
    var st2 := State(Closed(st), Some(Open(Some(c.timing), [])), st.skipped);
    FeedCueHead(st, c);
    FeedCueBody(st2, c);
    assert CueLines(c) == head + body;
    FeedAppend(st, head, body);
  }

  /** The parser's state after reading printed cues: each one finishes
      the entry before it and stays open until the next. */
  function AfterCues(st: State, cues: seq<Cue>): State
    decreases |cues|
  {
    if cues == [] then st
    else AfterCues(State(Closed(st), Some(Open(Some(cues[0].timing), cues[0].text)), st.skipped), cues[1..])
  }

  /** The parser reads printed cues back, line by line. */
  lemma {:induction false} FeedCues(st: State, cues: seq<Cue>)
    requires forall k :: 0 <= k < |cues| ==> CueOk(cues[k])
    ensures Feed(st, AllCueLines(cues)) == Success(AfterCues(st, cues))
    decreases |cues|
  {
    if cues != [] {
      var st1 := State(Closed(st), Some(Open(Some(cues[0].timing), cues[0].text)), st.skipped);
      FeedCue(st, cues[0]);
      FeedAppend(st, CueLines(cues[0]), AllCueLines(cues[1..]));
      FeedCues(st1, cues[1..]);
    }
  }

  /** The entries of a cue list: its first cue's, then the rest's. */
  lemma EntriesOfCons(cues: seq<Cue>)
    requires cues != []
    ensures EntriesOf(cues) == [Entry(cues[0].timing, cues[0].text)] + EntriesOf(cues[1..])
  {
  }

  /** After printed cues, the entries read are those before them followed
      by the cues' own, and no line was skipped. */
  lemma {:induction false} AfterCuesEntries(st: State, cues: seq<Cue>)
    ensures Closed(AfterCues(st, cues)) == Closed(st) + EntriesOf(cues)
    ensures AfterCues(st, cues).skipped == st.skipped
    decreases |cues|
  {
    if cues == [] {
      assert Closed(st) + [] == Closed(st);
    } else {
      var st1 := State(Closed(st), Some(Open(Some(cues[0].timing), cues[0].text)), st.skipped);
      var before, rest := Closed(st), EntriesOf(cues[1..]);
      var e := Entry(cues[0].timing, cues[0].text);
      AfterCuesEntries(st1, cues[1..]);
      assert Closed(st1) == before + [e];
      EntriesOfCons(cues);
      assert (before + [e]) + rest == before + ([e] + rest);
    }
  }

  /** The parse result once the loop's final state is known. */
  lemma ParseOfFeed(lines: seq<string>, st: State)
    requires Feed(Start, lines) == Success(st)
    ensures Parse(lines) == Success(Parsed(Closed(st), st.skipped))
  {
  }

  /** Reading printed cues and a final empty piece. */
  lemma FeedPrinted(cues: seq<Cue>)
    requires forall k :: 0 <= k < |cues| ==> CueOk(cues[k])
    ensures Feed(Start, AllCueLines(cues) + [""]) == Success(AfterCues(Start, cues))
  {
    FeedCues(Start, cues);
    FeedAppend(Start, AllCueLines(cues), [""]);
    FeedBlank(AfterCues(Start, cues));
  }

  /** Reading the written file gives back the cues' entries, with no line
      skipped: the parser inverts the writer on well-formed cues. */
  lemma RenderParseRoundTrip(cues: seq<Cue>)
    requires forall k :: 0 <= k < |cues| ==> CueOk(cues[k])
    ensures Parse(Split(Render(cues), '\n')) == Success(Parsed(EntriesOf(cues), []))
  {
    RenderLines(cues);
    FeedPrinted(cues);
    AfterCuesEntries(Start, cues);
    var st := AfterCues(Start, cues);
    ParseOfFeed(Split(Render(cues), '\n'), st);
    assert Closed(Start) == [] && Start.skipped == [];
    assert Closed(st) == [] + EntriesOf(cues) == EntriesOf(cues);
    assert st.skipped == [];
  }

  /** Entries as the parser leaves them, on one line each. */
  predicate AllEntriesOk(es: seq<Entry>) {
    forall k :: 0 <= k < |es| ==> EntryOk(es[k]) && EntryOneLine(es[k])
  }

  /** Selecting by timing line keeps entries well formed. */
  lemma {:induction false} WithTimingOk(es: seq<Entry>, t: string)
    requires AllEntriesOk(es)
    ensures AllEntriesOk(WithTiming(es, t))
  {
    if es != [] {
      WithTimingOk(es[..|es| - 1], t);
    }
  }

  /** Concatenated text of well-formed entries is made of text lines. */
  lemma {:induction false} TextOfOk(es: seq<Entry>)
    requires AllEntriesOk(es)
    ensures forall k :: 0 <= k < |TextOf(es)| ==> IsTextLine(TextOf(es)[k]) && OneLine(TextOf(es)[k])
  {
    if es != [] {
      var init := es[..|es| - 1];
      TextOfOk(init);
      var last := es[|es| - 1];
      assert TextOf(es) == TextOf(init) + last.text;
      forall k | 0 <= k < |TextOf(es)|
        ensures IsTextLine(TextOf(es)[k]) && OneLine(TextOf(es)[k])
      {
        if k >= |TextOf(init)| {
          assert TextOf(es)[k] == last.text[k - |TextOf(init)|];
        }
      }
    }
  }

  /** The merge of parsed entries can be printed and read back. */
  lemma MergeCuesOk(es: seq<Entry>)
    requires AllEntriesOk(es)
    ensures forall k :: 0 <= k < |MergeEntries(es)| ==> CueOk(MergeEntries(es)[k])
  {
    var cues := MergeEntries(es);
    forall k | 0 <= k < |cues| ensures CueOk(cues[k]) {
      var t := cues[k].timing;
      assert t in CueTimings(cues);
      var i :| 0 <= i < |es| && es[i].timing == t;
      WithTimingOk(es, t);
      TextOfOk(WithTiming(es, t));
    }
  }

  /** How the input file was decoded: as UTF-8 text, or not at all. */
  datatype Source = Utf8(text: string) | NotUtf8

  /** fix_overlapping_subtitles from file content to output content. A
      file that is not UTF-8 leaves the entry list empty (the fallback
      branches only `pass`), so the output is empty. */
  function FixOverlaps(src: Source): Result<string, ParseError> {
    match src
    case NotUtf8 => Success("")
    case Utf8(text) =>
      var parsed :- Parse(Split(text, '\n'));
      Success(Render(MergeEntries(parsed.entries)))
  }

  /** Running the fixer on its own output gives the same output: the
      written file parses back to its cues, whose timing lines are already
      distinct. */
  lemma FixOverlapsIdempotent(text: string)
    requires FixOverlaps(Utf8(text)).Success?
    ensures FixOverlaps(Utf8(FixOverlaps(Utf8(text)).value)) == FixOverlaps(Utf8(text))
  {
    var lines := Split(text, '\n');
    var es := Parse(lines).value.entries;
    ParseEntriesOk(lines);
    var cues := MergeEntries(es);
    MergeCuesOk(es);
    RenderParseRoundTrip(cues);
    MergeIdempotent(es);
  }
}
