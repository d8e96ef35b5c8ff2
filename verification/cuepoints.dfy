/** The TTML cuepoint converters, convert_to_srt and convert_to_ass, and the
    line consolidation the SRT path applies to a cue's text. A document is
    its list of cuepoints; each cuepoint has a time text and the subtitles
    shown from that time until the next cuepoint's time. */
module Cuepoints {
  import opened Results
  import opened Text
  import opened TimeCode

  /** A subtitle node. `content` is the node's first child text, absent
      when the node has no children; `substitution` is its
      substitution_string attribute; `x` and `y` are its position after
      scaling. */
  datatype Subtitle = Subtitle(content: Option<string>, substitution: Option<string>, x: int, y: int)

  datatype Cuepoint = Cuepoint(time: string, subtitles: seq<Subtitle>)

  /** Why a conversion stops: a time text int() rejects, or a subtitle
      node without children (the IndexError of `s.contents[0]`). */
  datatype ConvertError = BadTime(error: TimeError) | NoContent

  /** One SRT caption as convert_to_srt prints it. */
  datatype SrtCue = SrtCue(id: nat, start: string, end: string, text: string)

  // ---------------------------------------------------------------------
  // consolidate_lines
  // ---------------------------------------------------------------------

  /** A line that opens with a speaker marker such as "(Name)". The test is
      made on the line before it is stripped. */
  predicate IsSpeakerLine(line: string) {
    StartsWith(line, "(") && ')' in line
  }

  /** A stripped line, moved onto a line of its own when it is a speaker
      line. */
  function MarkLine(line: string): string {
    if IsSpeakerLine(line) then "\n" + Strip(line) else Strip(line)
  }

  function MarkLines(lines: seq<string>): (r: seq<string>)
    ensures |r| == |lines|
  {
    if lines == [] then [] else [MarkLine(lines[0])] + MarkLines(lines[1..])
  }

  /** consolidate_lines: the lines of the stripped text are stripped and
      joined with spaces, speaker lines keeping a line break before them;
      a space before a break is dropped and the result is stripped. */
  function Consolidate(text: string): string {
    Strip(ReplaceAll(Join(" ", MarkLines(SplitLines(Strip(text)))), " \n", "\n"))
  }

  /** Each marked line is its line, stripped, after a break for a speaker. */
  lemma {:induction false} MarkLinesAt(lines: seq<string>, k: nat)
    requires k < |lines|
    ensures MarkLines(lines)[k] == MarkLine(lines[k])
  {
    if k > 0 {
      MarkLinesAt(lines[1..], k - 1);
    }
  }

  /** A slice of text without line boundaries has none either. */
  lemma StripNoBreak(s: string)
    requires NoBreak(s)
    ensures NoBreak(Strip(s))
  {
    var r, a := Strip(s), LeadingSpace(s);
    forall i | 0 <= i < |r| ensures !IsLineBreak(r[i]) {
      assert r[i] == s[a + i];
    }
  }

  /** Text without a '\n' cannot contain " \n". */
  lemma {:induction false} NoSpaceBreak(s: string)
    requires '\n' !in s
    ensures !Contains(s, " \n")
    decreases |s|
  {
    if s != [] {
      if |s| >= 2 {
        assert s[1] in s;
      }
      NoSpaceBreak(s[1..]);
    }
  }

  /** Text starting with '\n' and otherwise free of it cannot contain
      " \n". */
  lemma NoSpaceBreakAfterBreak(s: string)
    requires '\n' !in s
    ensures !Contains("\n" + s, " \n")
  {
    var t := "\n" + s;
    assert t[1..] == s;
    assert t[0] == '\n' && |t| >= 1;
    assert !StartsWith(t, " \n") by {
      if |t| >= 2 {
        assert t[..2][0] == '\n';
      }
    }
    NoSpaceBreak(s);
  }

  /** A caption of one line is only stripped, speaker marker or not. */
  lemma ConsolidateOneLine(t: string)
    requires NoBreak(t)
    ensures Consolidate(t) == Strip(t)
  {
    var s := Strip(t);
    StripNoBreak(t);
    if s == [] {
      assert SplitLines(s) == [];
    } else {
      SplitLinesOne(s);
      StripStripped(s);
      var m := MarkLine(s);
      assert MarkLines([s]) == [m];
      assert Join(" ", [m]) == m;
      if IsSpeakerLine(s) {
        NoSpaceBreakAfterBreak(s);
        ReplaceAbsent(m, " \n", "\n");
        StripSpaceFront('\n', s);
      } else {
        NoSpaceBreak(s);
        ReplaceAbsent(m, " \n", "\n");
      }
    }
  }

  /** No " \n" starts inside `x` when only the first character of `x` may
      be '\n' and `y` does not start with one. */
  lemma NoSpaceBreakBefore(x: string, y: string)
    requires forall i :: 1 <= i < |x| ==> x[i] != '\n'
    requires y != [] && y[0] != '\n'
    ensures forall i :: 0 <= i < |x| ==> !StartsWith((x + y)[i..], " \n")
  {
    forall i | 0 <= i < |x| ensures !StartsWith((x + y)[i..], " \n") {
      assert (x + y)[i + 1] != '\n';
    }
  }

  /** Text between two non-empty stripped lines is stripped text. */
  lemma StrippedAround(a: string, m: string, b: string)
    requires a != [] && IsStripped(a) && b != [] && IsStripped(b)
    ensures IsStripped(a + m + b) && Strip(a + m + b) == a + m + b
  {
    var t := a + m + b;
    assert t[0] == a[0] && t[|t| - 1] == b[|b| - 1];
    StripStripped(t);
  }

  /** The marked lines of a plain or speaker line followed by a speaker
      line. */
  lemma MarkSpeakerPair(a: string, b: string)
    requires a != [] && IsStripped(a) && NoBreak(a)
    requires IsStripped(b) && NoBreak(b) && IsSpeakerLine(b)
    ensures IsStripped(a + "\n" + b)
    ensures MarkLines(SplitLines(Strip(a + "\n" + b))) == [MarkLine(a), "\n" + b]
  {
    var t := a + "\n" + b;
    StrippedAround(a, "\n", b);
    SplitLinesTwo(a, b);
    StripStripped(b);
    MarkLinesAt([a, b], 0);
    MarkLinesAt([a, b], 1);
  }

  /** A stripped line is marked by at most a leading break. */
  lemma MarkStripped(a: string)
    requires IsStripped(a)
    ensures MarkLine(a) == if IsSpeakerLine(a) then "\n" + a else a
  {
    StripStripped(a);
  }

  /** Dropping the space before the speaker line's break. */
  lemma ReplaceSpeakerJoin(ma: string, b: string)
    requires forall i :: 1 <= i < |ma| ==> ma[i] != '\n'
    requires NoBreak(b)
    ensures ReplaceAll(Join(" ", [ma, "\n" + b]), " \n", "\n") == ma + "\n" + b
  {
    assert Join(" ", [ma, "\n" + b]) == ma + (" \n" + b);
    NoSpaceBreakBefore(ma, " \n" + b);
    ReplaceAfterPrefix(ma, " \n" + b, " \n", "\n");
    ReplaceSpaceBreak(b);
  }

  /** The marked first line contains no '\n' after its first character. */
  lemma MarkedNoInnerBreak(a: string)
    requires IsStripped(a) && NoBreak(a)
    ensures forall i :: 1 <= i < |MarkLine(a)| ==> MarkLine(a)[i] != '\n'
  {
    MarkStripped(a);
    if IsSpeakerLine(a) {
      var ma := "\n" + a;
      assert forall i :: 1 <= i < |ma| ==> ma[i] == a[i - 1];
    }
  }

  /** Stripping drops the break a speaker first line was given. */
  lemma StripMarked(a: string, m: string, b: string)
    requires a != [] && IsStripped(a) && IsStripped(b) && b != []
    ensures Strip(MarkLine(a) + m + b) == a + m + b
  {
    var t := a + m + b;
    StrippedAround(a, m, b);
    MarkStripped(a);
    if IsSpeakerLine(a) {
      assert MarkLine(a) + m + b == ['\n'] + t;
      StripSpaceFront('\n', t);
    } else {
      assert MarkLine(a) + m + b == t;
    }
  }

  /** A speaker line after another line keeps its own line: joining the
      two lines with a space and then dropping the space before the break
      leaves exactly one '\n' between them. */
  lemma ConsolidateSpeaker(a: string, b: string)
    requires a != [] && IsStripped(a) && NoBreak(a)
    requires IsStripped(b) && NoBreak(b) && IsSpeakerLine(b)
    ensures Consolidate(a + "\n" + b) == a + "\n" + b
  {
    var t := a + "\n" + b;
    var ma := MarkLine(a);
    MarkSpeakerPair(a, b);
    var marked := MarkLines(SplitLines(Strip(t)));
    assert marked == [ma, "\n" + b];
    var joined := Join(" ", marked);
    MarkedNoInnerBreak(a);
    ReplaceSpeakerJoin(ma, b);
    var replaced := ReplaceAll(joined, " \n", "\n");
    assert replaced == ma + "\n" + b;
    StripMarked(a, "\n", b);
  }

  /** The marked lines of a line, a blank line and a speaker line. */
  lemma MarkBlankSpeaker(a: string, b: string)
    requires a != [] && IsStripped(a) && NoBreak(a)
    requires IsStripped(b) && NoBreak(b) && IsSpeakerLine(b)
    ensures IsStripped(a + "\n\n" + b)
    ensures MarkLines(SplitLines(Strip(a + "\n\n" + b))) == [MarkLine(a), "", "\n" + b]
  {
    var t := a + "\n\n" + b;
    StrippedAround(a, "\n\n", b);
    SplitLinesBlank(a, b);
    StripStripped(b);
    var lines := [a, "", b];
    MarkLinesAt(lines, 0);
    MarkLinesAt(lines, 1);
    MarkLinesAt(lines, 2);
    assert MarkLine("") == "";
  }

  /** A line, a blank line and a marked speaker line joined with spaces. */
  lemma JoinBlankSpeaker(ma: string, b: string)
    ensures Join(" ", [ma, "", "\n" + b]) == ma + "  \n" + b
  {
    var parts := [ma, "", "\n" + b];
    assert parts[1..] == ["", "\n" + b] && parts[1..][1..] == ["\n" + b];
    assert Join(" ", ["", "\n" + b]) == " \n" + b;
  }

  /** Of two spaces before a break, only the second goes. */
  lemma ReplaceDoubleSpaceBreak(b: string)
    requires NoBreak(b)
    ensures ReplaceAll("  \n" + b, " \n", "\n") == " \n" + b
  {
    var y := "  \n" + b;
    assert y[..2][1] == ' ';
    assert !StartsWith(y, " \n") && y[1..] == " \n" + b;
    ReplaceSpaceBreak(b);
  }

  /** A space and a break before text without breaks become the break. */
  lemma ReplaceSpaceBreak(b: string)
    requires NoBreak(b)
    ensures ReplaceAll(" \n" + b, " \n", "\n") == "\n" + b
  {
    var z := " \n" + b;
    assert StartsWith(z, " \n") && z[2..] == b;
    assert '\n' !in b;
    NoSpaceBreak(b);
    ReplaceAbsent(b, " \n", "\n");
  }

  /** Dropping one of the two spaces before the speaker line's break. */
  lemma ReplaceBlankSpeakerJoin(ma: string, b: string)
    requires forall i :: 1 <= i < |ma| ==> ma[i] != '\n'
    requires NoBreak(b)
    ensures ReplaceAll(Join(" ", [ma, "", "\n" + b]), " \n", "\n") == ma + " \n" + b
  {
    var y := "  \n" + b;
    JoinBlankSpeaker(ma, b);
    assert ma + "  \n" + b == ma + y;
    NoSpaceBreakBefore(ma, y);
    ReplaceAfterPrefix(ma, y, " \n", "\n");
    ReplaceDoubleSpaceBreak(b);
  }

  /** A blank line before a speaker line leaves a space before its break:
      only one of the two joining spaces comes before the '\n'. */
  lemma ConsolidateBlankBeforeSpeaker(a: string, b: string)
    requires a != [] && IsStripped(a) && NoBreak(a)
    requires IsStripped(b) && NoBreak(b) && IsSpeakerLine(b)
    ensures Consolidate(a + "\n\n" + b) == a + " \n" + b
  {
    var ma := MarkLine(a);
    MarkBlankSpeaker(a, b);
    MarkedNoInnerBreak(a);
    ReplaceBlankSpeakerJoin(ma, b);
    StripMarked(a, " \n", b);
  }

  /** A trailing space changes neither the marking nor the stripped
      line. */
  lemma MarkTrailingSpace(a: string)
    requires a != [] && IsStripped(a) && NoBreak(a)
    ensures NoBreak(a + " ")
    ensures MarkLine(a + " ") == MarkLine(a)
  {
    var a1 := a + " ";
    assert forall i :: 0 <= i < |a| ==> a1[i] == a[i];
    StripTrailingSpace(a);
    SpeakerTrailingSpace(a);
  }

  /** Stripping a stripped line with a space appended gives the line. */
  lemma StripTrailingSpace(a: string)
    requires a != [] && IsStripped(a)
    ensures Strip(a + " ") == a
  {
    var a1 := a + " ";
    assert a1[0] == a[0] && LeadingSpace(a1) == 0;
    assert a1[..|a1| - 1] == a;
    assert KeptLength(a1) == KeptLength(a) == |a|;
    assert a1[0..][..|a|] == a;
  }

  /** A trailing space does not make or unmake a speaker line. */
  lemma SpeakerTrailingSpace(a: string)
    requires a != []
    ensures IsSpeakerLine(a + " ") == IsSpeakerLine(a)
  {
    assert (a + " ")[..1] == a[..1];
    assert ')' in a + " " <==> ')' in a;
  }

  /** The marked lines of a line ending in a space followed by a speaker
      line. */
  lemma MarkSpaceSpeakerPair(a: string, b: string)
    requires a != [] && IsStripped(a) && NoBreak(a)
    requires IsStripped(b) && NoBreak(b) && IsSpeakerLine(b)
    ensures IsStripped(a + " \n" + b)
    ensures MarkLines(SplitLines(Strip(a + " \n" + b))) == [MarkLine(a), "\n" + b]
  {
    var t := a + " \n" + b;
    var a1 := a + " ";
    StrippedAround(a, " \n", b);
    assert t == a1 + "\n" + b;
    MarkTrailingSpace(a);
    SplitLinesTwo(a1, b);
    StripStripped(b);
    MarkLinesAt([a1, b], 0);
    MarkLinesAt([a1, b], 1);
  }

  /** A space at the end of the line before a speaker line is dropped with
      the joining space. */
  lemma ConsolidateSpaceBreak(a: string, b: string)
    requires a != [] && IsStripped(a) && NoBreak(a)
    requires IsStripped(b) && NoBreak(b) && IsSpeakerLine(b)
    ensures Consolidate(a + " \n" + b) == a + "\n" + b
  {
    var ma := MarkLine(a);
    MarkSpaceSpeakerPair(a, b);
    MarkedNoInnerBreak(a);
    ReplaceSpeakerJoin(ma, b);
    StripMarked(a, "\n", b);
  }

  /** consolidate_lines is not idempotent: a blank line before a speaker
      line leaves " \n", which a second pass turns into "\n". */
  lemma ConsolidateNotIdempotent(a: string, b: string)
    requires a != [] && IsStripped(a) && NoBreak(a)
    requires IsStripped(b) && NoBreak(b) && IsSpeakerLine(b)
    ensures Consolidate(a + "\n\n" + b) == a + " \n" + b
    ensures Consolidate(Consolidate(a + "\n\n" + b)) == a + "\n" + b
    ensures Consolidate(Consolidate(a + "\n\n" + b)) != Consolidate(a + "\n\n" + b)
  {
    ConsolidateBlankBeforeSpeaker(a, b);
    ConsolidateSpaceBreak(a, b);
    assert (a + " \n" + b)[|a|] == ' ' && (a + "\n" + b)[|a|] == '\n';
  }

  /** The caption "a", a blank line and "(b)" consolidates to "a \n(b)",
      and that to "a\n(b)". */
  lemma ConsolidateTwiceExample(a: string, b: string)
    requires a == "a" && b == "(b)"
    ensures Consolidate(a + "\n\n" + b) == "a \n(b)"
    ensures Consolidate(Consolidate(a + "\n\n" + b)) == "a\n(b)"
  {
    ExampleLines(a, b);
    ConsolidateNotIdempotent(a, b);
  }

  /** "a" is a plain line and "(b)" a speaker line. */
  lemma ExampleLines(a: string, b: string)
    requires a == "a" && b == "(b)"
    ensures a != [] && IsStripped(a) && NoBreak(a)
    ensures IsStripped(b) && NoBreak(b) && IsSpeakerLine(b)
    ensures a + " \n" + b == "a \n(b)" && a + "\n" + b == "a\n(b)"
  {
    assert b[..1] == "(" && b[2] == ')';
  }

  /** The stripped lines. */
  function StripEach(lines: seq<string>): (r: seq<string>)
    ensures |r| == |lines|
  {
    if lines == [] then [] else [Strip(lines[0])] + StripEach(lines[1..])
  }

  lemma {:induction false} StripEachAt(lines: seq<string>, k: nat)
    requires k < |lines|
    ensures StripEach(lines)[k] == Strip(lines[k])
  {
    if k > 0 {
      StripEachAt(lines[1..], k - 1);
    }
  }

  /** Without speaker lines, marking a line only strips it. */
  lemma {:induction false} MarkLinesNoSpeaker(lines: seq<string>)
    requires forall k :: 0 <= k < |lines| ==> !IsSpeakerLine(lines[k])
    ensures MarkLines(lines) == StripEach(lines)
  {
    if lines != [] {
      assert lines[0] == lines[0];
      MarkLinesNoSpeaker(lines[1..]);
    }
  }

  /** A line opening with a non-space character keeps it when stripped. */
  lemma StripKeepsFirst(s: string)
    requires s != [] && !IsSpace(s[0])
    ensures Strip(s) != [] && Strip(s)[0] == s[0]
  {
    assert LeadingSpace(s) == 0;
  }

  /** A line closing with a non-space character keeps it when stripped. */
  lemma StripKeepsLast(s: string)
    requires s != [] && !IsSpace(s[|s| - 1])
    ensures Strip(s) != [] && Strip(s)[|Strip(s)| - 1] == s[|s| - 1]
  {
    assert LeadingSpace(s) + |Strip(s)| == |s|;
  }

  /** The stripped lines of stripped text, joined with spaces, form
      stripped text without line boundaries. */
  lemma JoinStrippedLines(s: string)
    requires IsStripped(s)
    ensures NoBreak(Join(" ", StripEach(SplitLines(s))))
    ensures IsStripped(Join(" ", StripEach(SplitLines(s))))
  {
    StrippedLinesNoBreak(SplitLines(s));
    if s != [] {
      StrippedLinesEnds(s);
    }
  }

  /** Stripped lines joined with spaces hold no line boundary. */
  lemma StrippedLinesNoBreak(lines: seq<string>)
    requires forall k :: 0 <= k < |lines| ==> NoBreak(lines[k])
    ensures NoBreak(Join(" ", StripEach(lines)))
  {
    var parts := StripEach(lines);
    forall k | 0 <= k < |parts| ensures NoBreak(parts[k]) {
      StripEachAt(lines, k);
      StripNoBreak(lines[k]);
    }
    assert NoBreak(" ");
    JoinNoBreak(" ", parts);
  }

  /** The stripped lines of non-empty stripped text, joined with spaces,
      start and end like the text. */
  lemma StrippedLinesEnds(s: string)
    requires s != [] && IsStripped(s)
    ensures IsStripped(Join(" ", StripEach(SplitLines(s))))
  {
    var lines := SplitLines(s);
    LineBreakIsSpace(s[|s| - 1]);
    SplitLinesFirst(s);
    SplitLinesLast(s);
    StripEachEnds(lines);
  }

  /** Lines whose first line opens and whose last line closes with a
      non-space character, stripped and joined with spaces, are stripped
      text. */
  lemma StripEachEnds(lines: seq<string>)
    requires lines != [] && lines[0] != [] && lines[|lines| - 1] != []
    requires !IsSpace(lines[0][0]) && !IsSpace(lines[|lines| - 1][|lines[|lines| - 1]| - 1])
    ensures IsStripped(Join(" ", StripEach(lines)))
  {
    var parts := StripEach(lines);
    StripEachFirst(lines);
    StripEachLast(lines);
    JoinEnds(" ", parts);
  }

  lemma StripEachFirst(lines: seq<string>)
    requires lines != [] && lines[0] != [] && !IsSpace(lines[0][0])
    ensures StripEach(lines)[0] != [] && StripEach(lines)[0][0] == lines[0][0]
  {
    StripEachAt(lines, 0);
    StripKeepsFirst(lines[0]);
  }

  lemma StripEachLast(lines: seq<string>)
    requires lines != [] && lines[|lines| - 1] != []
    requires !IsSpace(lines[|lines| - 1][|lines[|lines| - 1]| - 1])
    ensures var p, l := StripEach(lines)[|lines| - 1], lines[|lines| - 1];
            p != [] && p[|p| - 1] == l[|l| - 1]
  {
    StripEachAt(lines, |lines| - 1);
    StripKeepsLast(lines[|lines| - 1]);
  }

  /** Caption text without speaker lines becomes one line: its stripped
      lines joined with single spaces, with no line boundary left. */
  lemma ConsolidateNoSpeaker(text: string)
    requires forall k :: 0 <= k < |SplitLines(Strip(text))| ==> !IsSpeakerLine(SplitLines(Strip(text))[k])
    ensures Consolidate(text) == Join(" ", StripEach(SplitLines(Strip(text))))
    ensures NoBreak(Consolidate(text))
  {
    var s := Strip(text);
    var lines := SplitLines(s);
    MarkLinesNoSpeaker(lines);
    JoinStrippedLines(s);
    var j := Join(" ", StripEach(lines));
    assert '\n' !in j by {
      assert forall i :: 0 <= i < |j| ==> !IsLineBreak(j[i]);
    }
    NoSpaceBreak(j);
    ReplaceAbsent(j, " \n", "\n");
    StripStripped(j);
  }

  // ---------------------------------------------------------------------
  // Subtitle texts
  // ---------------------------------------------------------------------

  /** A subtitle's caption text: its substitution_string when the node has
      one, otherwise its stripped first child. The child is read first, so
      a node without children fails even when it has a substitution. */
  function SubtitleText(s: Subtitle): Result<string, ConvertError> {
    match s.content
    case None => Failure(NoContent)
    case Some(c) => Success(if s.substitution.Some? then s.substitution.value else Strip(c))
  }

  /** The texts of a cuepoint's subtitles, in document order. */
  function Texts(subs: seq<Subtitle>): (r: Result<seq<string>, ConvertError>)
    ensures r.Success? <==> forall j :: 0 <= j < |subs| ==> subs[j].content.Some?
    ensures r.Success? ==> |r.value| == |subs|
  {
    if subs == [] then Success([])
    else
      var t :- SubtitleText(subs[0]);
      var rest :- Texts(subs[1..]);
      Success([t] + rest)
  }

  /** Each text is decided by its own node: the substitution when present,
      else the stripped content. */
  lemma {:induction false} TextsAt(subs: seq<Subtitle>, j: nat)
    requires j < |subs| && Texts(subs).Success?
    ensures subs[j].content.Some?
    ensures Texts(subs).value[j]
            == if subs[j].substitution.Some? then subs[j].substitution.value else Strip(subs[j].content.value)
  {
    if j > 0 {
      TextsAt(subs[1..], j - 1);
    }
  }

  // ---------------------------------------------------------------------
  // Which cuepoints yield captions
  // ---------------------------------------------------------------------

  /** The cuepoints below `n` that have subtitles, in order. */
  function SpokenBelow(cps: seq<Cuepoint>, n: nat): (idx: seq<nat>)
    requires n <= |cps|
    ensures forall k :: 0 <= k < |idx| ==> idx[k] < n
  {
    if n == 0 then []
    else SpokenBelow(cps, n - 1) + (if cps[n - 1].subtitles != [] then [n - 1] else [])
  }

  /** The cuepoints that yield captions: every one with subtitles except
      the last cuepoint, which only supplies the previous one's end time. */
  function Spoken(cps: seq<Cuepoint>): (idx: seq<nat>)
    ensures forall k :: 0 <= k < |idx| ==> idx[k] + 1 < |cps|
  {
    if cps == [] then [] else SpokenBelow(cps, |cps| - 1)
  }

  /** Only cuepoints with subtitles are listed. */
  lemma {:induction false} SpokenBelowHasSubtitles(cps: seq<Cuepoint>, n: nat, k: nat)
    requires n <= |cps| && k < |SpokenBelow(cps, n)|
    ensures cps[SpokenBelow(cps, n)[k]].subtitles != []
    decreases n
  {
    var prev := SpokenBelow(cps, n - 1);
    if k < |prev| {
      SpokenBelowHasSubtitles(cps, n - 1, k);
      assert SpokenBelow(cps, n)[k] == prev[k];
    }
  }

  /** Every cuepoint that yields a caption has subtitles. */
  lemma SpokenHasSubtitles(cps: seq<Cuepoint>, k: nat)
    requires k < |Spoken(cps)|
    ensures cps[Spoken(cps)[k]].subtitles != []
  {
    SpokenBelowHasSubtitles(cps, |cps| - 1, k);
  }

  /** Cuepoints below a bound are listed in document order. */
  lemma {:induction false} SpokenBelowSorted(cps: seq<Cuepoint>, n: nat, a: nat, b: nat)
    requires n <= |cps| && a < b < |SpokenBelow(cps, n)|
    ensures SpokenBelow(cps, n)[a] < SpokenBelow(cps, n)[b]
    decreases n
  {
    var prev := SpokenBelow(cps, n - 1);
    if b < |prev| {
      SpokenBelowSorted(cps, n - 1, a, b);
    } else {
      assert SpokenBelow(cps, n)[a] == prev[a];
    }
  }

  /** Captions come out in document order. */
  lemma SpokenSorted(cps: seq<Cuepoint>, a: nat, b: nat)
    requires a < b < |Spoken(cps)|
    ensures Spoken(cps)[a] < Spoken(cps)[b]
  {
    SpokenBelowSorted(cps, |cps| - 1, a, b);
  }

  /** Every cuepoint with subtitles below `n` is listed. */
  lemma {:induction false} SpokenBelowComplete(cps: seq<Cuepoint>, n: nat, i: nat)
    requires i < n <= |cps| && cps[i].subtitles != []
    ensures i in SpokenBelow(cps, n)
    decreases n
  {
    if i < n - 1 {
      SpokenBelowComplete(cps, n - 1, i);
    }
  }

  /** Every cuepoint with subtitles that has a successor yields a caption. */
  lemma SpokenComplete(cps: seq<Cuepoint>, i: nat)
    requires i + 1 < |cps| && cps[i].subtitles != []
    ensures i in Spoken(cps)
  {
    SpokenBelowComplete(cps, |cps| - 1, i);
  }

  /** Appending a cuepoint lets the previous last cuepoint, if it has
      subtitles, yield a caption; nothing before it changes. */
  lemma SpokenSnoc(cps: seq<Cuepoint>, c: Cuepoint)
    ensures Spoken(cps + [c])
            == Spoken(cps) + (if cps != [] && cps[|cps| - 1].subtitles != [] then [|cps| - 1] else [])
  {
    if cps != [] {
      SpokenBelowPrefix(cps + [c], cps, |cps| - 1);
      SpokenBelowPrefix(cps + [c], cps, |cps|);
    }
  }

  /** SpokenBelow reads only the cuepoints below its bound. */
  lemma {:induction false} SpokenBelowPrefix(cps: seq<Cuepoint>, pre: seq<Cuepoint>, n: nat)
    requires n <= |pre| <= |cps| && pre == cps[..|pre|]
    ensures SpokenBelow(cps, n) == SpokenBelow(pre, n)
    decreases n
  {
    if n > 0 {
      SpokenBelowPrefix(cps, pre, n - 1);
      assert cps[n - 1] == pre[n - 1];
    }
  }

  /** Raising the bound keeps every cuepoint already listed in its place. */
  lemma {:induction false} SpokenBelowAt(cps: seq<Cuepoint>, m: nat, n: nat, k: nat)
    requires m <= n <= |cps| && k < |SpokenBelow(cps, m)|
    ensures k < |SpokenBelow(cps, n)| && SpokenBelow(cps, n)[k] == SpokenBelow(cps, m)[k]
    decreases n - m
  {
    if m < n {
      SpokenBelowAt(cps, m, n - 1, k);
    }
  }

  /** A cuepoint `i` with subtitles below the bound `n` comes right after
      the ones listed below `i`. */
  lemma SpokenBelowNext(cps: seq<Cuepoint>, i: nat, n: nat)
    requires i < n <= |cps| && cps[i].subtitles != []
    ensures |SpokenBelow(cps, i)| < |SpokenBelow(cps, n)|
    ensures SpokenBelow(cps, n)[|SpokenBelow(cps, i)|] == i
  {
    var a := SpokenBelow(cps, i);
    assert SpokenBelow(cps, i + 1) == a + [i];
    SpokenBelowAt(cps, i + 1, n, |a|);
  }

  /** Cuepoint `i` with subtitles and a successor is the next one to yield
      a caption. */
  lemma SpokenNext(cps: seq<Cuepoint>, i: nat)
    requires i + 1 < |cps| && cps[i].subtitles != []
    ensures |SpokenBelow(cps, i)| < |Spoken(cps)|
    ensures Spoken(cps)[|SpokenBelow(cps, i)|] == i
  {
    var n := |cps| - 1;
    assert Spoken(cps) == SpokenBelow(cps, n);
    SpokenBelowNext(cps, i, n);
  }

  // ---------------------------------------------------------------------
  // The loop both converters share
  // ---------------------------------------------------------------------

  /** A caption step: what a converter makes of one cuepoint, given the
      cuepoint after it and the caption's number. */
  type Step<T> = (Cuepoint, Cuepoint, nat) -> Result<T, ConvertError>

  /** What the loop meets, caption by caption: the k-th cuepoint that
      yields a caption, with its successor, as caption number k + 1. */
  function Steps<T>(cps: seq<Cuepoint>, f: Step<T>): (rs: seq<Result<T, ConvertError>>)
    ensures |rs| == |Spoken(cps)|
  {
    var sp := Spoken(cps);
    seq(|sp|, k requires 0 <= k < |sp| => f(cps[sp[k]], cps[sp[k] + 1], k + 1))
  }

  /** The loop `for i, caption in enumerate(captions[:-1])` of both
      converters: a cuepoint without subtitles is skipped without using up
      a caption number, every other one is handed to the step with the
      cuepoint after it, and the first failing step ends the conversion. */
  method EachCaption<T>(cps: seq<Cuepoint>, f: Step<T>) returns (r: Result<seq<T>, ConvertError>)
    ensures r == Collect(Steps(cps, f))
  {
    var made: seq<T> := [];
    var id := 1;
    var i := 0;
    ghost var done: seq<nat> := [];
    while i + 1 < |cps|
      invariant i == 0 || i < |cps|
      invariant done == SpokenBelow(cps, i)
      invariant id == |done| + 1 && |done| <= |Spoken(cps)|
      invariant Collect(Steps(cps, f)[..|done|]) == Success(made)
    {
      if cps[i].subtitles != [] {
        EachCaptionStep(cps, f, i, made);
        var v :- f(cps[i], cps[i + 1], id);
        made := made + [v];
        done := done + [i];
        id := id + 1;
      }
      i := i + 1;
    }
    EachCaptionEnd(cps, f, i, made);
    r := Success(made);
  }

  /** One pass of the loop body over a cuepoint with subtitles: its step
      is the next one in the run. */
  lemma EachCaptionStep<T>(cps: seq<Cuepoint>, f: Step<T>, i: nat, made: seq<T>)
    requires i + 1 < |cps| && cps[i].subtitles != []
    requires |SpokenBelow(cps, i)| <= |Spoken(cps)|
    requires Collect(Steps(cps, f)[..|SpokenBelow(cps, i)|]) == Success(made)
    ensures |SpokenBelow(cps, i)| < |Spoken(cps)|
    ensures var res := f(cps[i], cps[i + 1], |SpokenBelow(cps, i)| + 1);
            && (res.Failure? ==> Collect(Steps(cps, f)) == Failure(res.error))
            && (res.Success? ==>
                  Collect(Steps(cps, f)[..|SpokenBelow(cps, i)| + 1]) == Success(made + [res.value]))
  {
    var rs := Steps(cps, f);
    var n := |SpokenBelow(cps, i)|;
    SpokenNext(cps, i);
    assert rs[n] == f(cps[i], cps[i + 1], n + 1);
    CollectNext(rs, n, made);
  }

  /** Once the loop has passed every cuepoint but the last, the run is
      complete. */
  lemma EachCaptionEnd<T>(cps: seq<Cuepoint>, f: Step<T>, i: nat, made: seq<T>)
    requires i + 1 >= |cps| && (i == 0 || i < |cps|)
    requires |SpokenBelow(cps, i)| <= |Spoken(cps)|
    requires Collect(Steps(cps, f)[..|SpokenBelow(cps, i)|]) == Success(made)
    ensures Collect(Steps(cps, f)) == Success(made)
  {
    var rs := Steps(cps, f);
    if cps != [] {
      var n := |cps| - 1;
      assert Spoken(cps) == SpokenBelow(cps, n);
    }
    assert rs[..|SpokenBelow(cps, i)|] == rs;
  }

  /** In a successful run the k-th value is what the step made of the k-th
      cuepoint that yields a caption, numbered k + 1. */
  lemma StepsValue<T>(cps: seq<Cuepoint>, f: Step<T>, k: nat)
    requires Collect(Steps(cps, f)).Success? && k < |Spoken(cps)|
    ensures Spoken(cps)[k] + 1 < |cps|
    ensures f(cps[Spoken(cps)[k]], cps[Spoken(cps)[k] + 1], k + 1)
            == Success(Collect(Steps(cps, f)).value[k])
  {
    var rs := Steps(cps, f);
    CollectAt(rs, k);
  }

  /** A run fails with the error of the first cuepoint whose step fails. */
  lemma StepsFailure<T>(cps: seq<Cuepoint>, f: Step<T>, k: nat)
    requires k < |Spoken(cps)|
    requires f(cps[Spoken(cps)[k]], cps[Spoken(cps)[k] + 1], k + 1).Failure?
    requires forall j :: 0 <= j < k ==> f(cps[Spoken(cps)[j]], cps[Spoken(cps)[j] + 1], j + 1).Success?
    ensures Collect(Steps(cps, f)) == Failure(f(cps[Spoken(cps)[k]], cps[Spoken(cps)[k] + 1], k + 1).error)
  {
    var rs := Steps(cps, f);
    CollectFirstFailure(rs, k);
  }

  /** A run fails exactly when the step fails on some cuepoint that yields
      a caption. */
  lemma StepsFailIff<T>(cps: seq<Cuepoint>, f: Step<T>)
    ensures Collect(Steps(cps, f)).Failure?
            <==> exists k :: 0 <= k < |Spoken(cps)| && f(cps[Spoken(cps)[k]], cps[Spoken(cps)[k] + 1], k + 1).Failure?
  {
    var rs := Steps(cps, f);
    if Collect(rs).Failure? {
      var k := FirstFailure(rs);
      assert rs[k] == f(cps[Spoken(cps)[k]], cps[Spoken(cps)[k] + 1], k + 1);
    } else {
      forall k | 0 <= k < |Spoken(cps)|
        ensures f(cps[Spoken(cps)[k]], cps[Spoken(cps)[k] + 1], k + 1).Success?
      {
        StepsValue(cps, f, k);
      }
    }
  }

  // ---------------------------------------------------------------------
  // convert_to_srt
  // ---------------------------------------------------------------------

  /** What stops a converter at a cuepoint: int() rejecting its time or
      its successor's time, or a subtitle node without children (which
      is when Texts fails). */
  predicate CueFails(c: Cuepoint, next: Cuepoint) {
    || SecondsToClock(c.time).Failure?
    || SecondsToClock(next.time).Failure?
    || Texts(c.subtitles).Failure?
  }

  /** to_srt_time with its error named. */
  function SrtTime(stamp: string): Result<string, ConvertError> {
    match ToSrtTime(stamp)
    case Success(v) => Success(v)
    case Failure(e) => Failure(BadTime(e))
  }

  /** The caption a cuepoint yields as caption number `id`: shown from
      its own time until the next cuepoint's time, with its subtitles'
      texts joined by line breaks and consolidated. */
  function SrtCueOf(c: Cuepoint, next: Cuepoint, id: nat): (r: Result<SrtCue, ConvertError>)
    ensures r.Failure? <==> CueFails(c, next)
    ensures r.Success? ==> r.value.id == id
  {
    var start :- SrtTime(c.time);
    var end :- SrtTime(next.time);
    var texts :- Texts(c.subtitles);
    Success(SrtCue(id, start, end, Consolidate(Join("\n", texts))))
  }

  /** convert_to_srt: the shared loop with SRT captions as the step. */
  method ConvertToSrt(cps: seq<Cuepoint>) returns (r: Result<seq<SrtCue>, ConvertError>)
    ensures r == Collect(Steps(cps, SrtCueOf))
  {
    r := EachCaption(cps, SrtCueOf);
  }



  /** A successful conversion has one caption per cuepoint that has
      subtitles and a successor, numbered 1, 2, ... in document order. Each
      shows its cuepoint's time until the next cuepoint's time, and its
      text is the cuepoint's subtitle texts joined by line breaks and
      consolidated. */
  lemma SrtCaption(cps: seq<Cuepoint>, k: nat)
    requires Collect(Steps(cps, SrtCueOf)).Success? && k < |Spoken(cps)|
    ensures |Collect(Steps(cps, SrtCueOf)).value| == |Spoken(cps)|
    ensures var i := Spoken(cps)[k];
            var cue := Collect(Steps(cps, SrtCueOf)).value[k];
            && i + 1 < |cps| && cps[i].subtitles != []
            && cue.id == k + 1
            && SrtTime(cps[i].time) == Success(cue.start)
            && SrtTime(cps[i + 1].time) == Success(cue.end)
            && Texts(cps[i].subtitles).Success?
            && cue.text == Consolidate(Join("\n", Texts(cps[i].subtitles).value))
  {
    StepsValue(cps, SrtCueOf, k);
    SpokenHasSubtitles(cps, k);
  }

  /** A conversion fails exactly when a cuepoint that yields a caption has
      a time int() rejects, a successor whose time int() rejects, or a
      subtitle node without children; the first such cuepoint's error is
      the one reported. */
  lemma SrtFailure(cps: seq<Cuepoint>)
    ensures Collect(Steps(cps, SrtCueOf)).Failure?
            <==> exists k :: 0 <= k < |Spoken(cps)| && CueFails(cps[Spoken(cps)[k]], cps[Spoken(cps)[k] + 1])
  {
    StepsFailIff(cps, SrtCueOf);
    if Collect(Steps(cps, SrtCueOf)).Failure? {
      var k :| 0 <= k < |Spoken(cps)| && SrtCueOf(cps[Spoken(cps)[k]], cps[Spoken(cps)[k] + 1], k + 1).Failure?;
      assert CueFails(cps[Spoken(cps)[k]], cps[Spoken(cps)[k] + 1]);
    } else {
      forall k | 0 <= k < |Spoken(cps)|
        ensures !CueFails(cps[Spoken(cps)[k]], cps[Spoken(cps)[k] + 1])
      {
        assert SrtCueOf(cps[Spoken(cps)[k]], cps[Spoken(cps)[k] + 1], k + 1).Success?;
      }
    }
  }

  // ---------------------------------------------------------------------
  // convert_to_ass
  // ---------------------------------------------------------------------

  /** to_ass_time with its error named. */
  function AssTime(stamp: string): Result<string, ConvertError> {
    match ToAssTime(stamp)
    case Success(v) => Success(v)
    case Failure(e) => Failure(BadTime(e))
  }

  /** One event line: a dialogue on layer 0, from `start` to `end`, in the
      Default style, then the remaining fields of the Format line. */
  function Dialogue(start: string, end: string, s: Subtitle, blurb: string): string {
    "Dialogue: 0" + "," + start + "," + end + "," + "Default" + "," + DialogueTail(s, blurb)
  }

  /** The fields after the style: no name, zero margins, no effect, then
      the text placed by a \pos override at the subtitle's position. */
  function DialogueTail(s: Subtitle, blurb: string): string {
    ",0,0,0,,{\\pos(" + FormatInt(s.x, 0) + "," + FormatInt(s.y, 0) + ")}" + blurb
  }

  /** The event lines of one cuepoint's subtitles, in document order; the
      first subtitle node without children stops the conversion. */
  function DialogueLines(start: string, end: string, subs: seq<Subtitle>): (r: Result<seq<string>, ConvertError>)
    ensures r.Success? <==> Texts(subs).Success?
    ensures r.Success? ==> |r.value| == |subs|
  {
    if subs == [] then Success([])
    else
      var blurb :- SubtitleText(subs[0]);
      var rest :- DialogueLines(start, end, subs[1..]);
      Success([Dialogue(start, end, subs[0], blurb)] + rest)
  }

  /** The j-th event line carries the j-th subtitle's position and the same
      text the SRT path takes for it. */
  lemma {:induction false} DialogueLinesAt(start: string, end: string, subs: seq<Subtitle>, j: nat)
    requires DialogueLines(start, end, subs).Success? && j < |subs|
    ensures Texts(subs).Success?
    ensures DialogueLines(start, end, subs).value[j] == Dialogue(start, end, subs[j], Texts(subs).value[j])
  {
    var blurb := SubtitleText(subs[0]);
    var rest := DialogueLines(start, end, subs[1..]);
    assert blurb.Success? && rest.Success?;
    assert DialogueLines(start, end, subs).value == [Dialogue(start, end, subs[0], blurb.value)] + rest.value;
    assert Texts(subs).value == [blurb.value] + Texts(subs[1..]).value;
    if j > 0 {
      DialogueLinesAt(start, end, subs[1..], j - 1);
    }
  }

  /** The event lines a cuepoint yields: one per subtitle, each shown from
      its own time until the next cuepoint's time. ASS events carry no
      number, so the caption number is not used. */
  function AssBlockOf(c: Cuepoint, next: Cuepoint, id: nat): (r: Result<seq<string>, ConvertError>)
    ensures r.Failure? <==> CueFails(c, next)
    ensures r.Success? ==> |r.value| == |c.subtitles|
  {
    var start :- AssTime(c.time);
    var end :- AssTime(next.time);
    DialogueLines(start, end, c.subtitles)
  }

  /** The lines of consecutive blocks, one block after another. */
  function Concat(blocks: seq<seq<string>>): seq<string> {
    if blocks == [] then [] else Concat(blocks[..|blocks| - 1]) + blocks[|blocks| - 1]
  }

  /** The number of subtitles of the listed cuepoints. */
  function SubtitleTotal(cps: seq<Cuepoint>, idx: seq<nat>): nat
    requires forall k :: 0 <= k < |idx| ==> idx[k] < |cps|
  {
    if idx == [] then 0
    else SubtitleTotal(cps, idx[..|idx| - 1]) + |cps[idx[|idx| - 1]].subtitles|
  }

  /** Blocks of one line per subtitle hold as many lines as the cuepoints
      have subtitles. */
  lemma {:induction false} ConcatCount(cps: seq<Cuepoint>, idx: seq<nat>, blocks: seq<seq<string>>)
    requires |blocks| == |idx|
    requires forall k :: 0 <= k < |idx| ==> idx[k] < |cps| && |blocks[k]| == |cps[idx[k]].subtitles|
    ensures |Concat(blocks)| == SubtitleTotal(cps, idx)
  {
    if idx != [] {
      ConcatCount(cps, idx[..|idx| - 1], blocks[..|blocks| - 1]);
    }
  }

  /** convert_to_ass after its header: the shared loop with each cuepoint's
      event lines as the step, written one block after another. A
      successful conversion writes one event line per subtitle of every
      cuepoint that yields a caption. */
  method ConvertToAss(cps: seq<Cuepoint>) returns (r: Result<seq<string>, ConvertError>)
    ensures r.Failure? <==> Collect(Steps(cps, AssBlockOf)).Failure?
    ensures r.Failure? ==> r.error == Collect(Steps(cps, AssBlockOf)).error
    ensures r.Success? ==> r.value == Concat(Collect(Steps(cps, AssBlockOf)).value)
    ensures r.Success? ==> |r.value| == SubtitleTotal(cps, Spoken(cps))
  {
    var blocks :- EachCaption(cps, AssBlockOf);
    forall k | 0 <= k < |Spoken(cps)|
      ensures Spoken(cps)[k] < |cps| && |blocks[k]| == |cps[Spoken(cps)[k]].subtitles|
    {
      StepsValue(cps, AssBlockOf, k);
    }
    ConcatCount(cps, Spoken(cps), blocks);
    r := Success(Concat(blocks));
  }

  /** ASS clock text has no comma, so it fills exactly one field of an
      event line. */
  lemma AssTimeNoComma(stamp: string)
    requires AssTime(stamp).Success?
    ensures ',' !in AssTime(stamp).value
  {
    var c := SecondsToClock(stamp).value;
    FormatIntNoSeparator(c.hours, 1);
    FormatIntNoSeparator(c.minutes, 2);
    FormatIntNoSeparator(c.seconds, 2);
    FormatIntNoSeparator(c.fraction, 2);
  }

  /** Four comma-free fields followed by a comma and anything at all come
      back as the first four fields of a comma split. */
  lemma LeadingFields(a: string, b: string, c: string, d: string, tail: string)
    requires ',' !in a && ',' !in b && ',' !in c && ',' !in d
    ensures var f := Split(a + [','] + b + [','] + c + [','] + d + [','] + tail, ',');
            |f| >= 4 && f[0] == a && f[1] == b && f[2] == c && f[3] == d
  {
    var d3 := d + [','] + tail;
    var d2 := c + [','] + d3;
    var d1 := b + [','] + d2;
    assert a + [','] + b + [','] + c + [','] + d + [','] + tail == a + [','] + d1;
    SplitAtSep(a, ',', d1);
    SplitAtSep(b, ',', d2);
    SplitAtSep(c, ',', d3);
    SplitAtSep(d, ',', tail);
  }

  /** Read back as comma-separated fields, an event line has layer 0,
      the start time, the end time and the Default style first, whatever
      its text holds. */
  lemma DialogueFields(start: string, end: string, s: Subtitle, blurb: string)
    requires ',' !in start && ',' !in end
    ensures var f := Split(Dialogue(start, end, s, blurb), ',');
            |f| >= 4 && f[0] == "Dialogue: 0" && f[1] == start && f[2] == end && f[3] == "Default"
  {
    var layer, style := "Dialogue: 0", "Default";
    assert ',' !in layer && ',' !in style;
    LeadingFields(layer, start, end, style, DialogueTail(s, blurb));
  }

  /** The block a cuepoint yields holds one line per subtitle, each with
      the subtitle's position and the text the SRT path takes for it,
      timed from the cuepoint's time to the next cuepoint's time. */
  lemma AssBlockLine(c: Cuepoint, next: Cuepoint, id: nat, j: nat)
    requires AssBlockOf(c, next, id).Success? && j < |c.subtitles|
    ensures AssTime(c.time).Success? && AssTime(next.time).Success? && Texts(c.subtitles).Success?
    ensures AssBlockOf(c, next, id).value[j]
            == Dialogue(AssTime(c.time).value, AssTime(next.time).value, c.subtitles[j], Texts(c.subtitles).value[j])
  {
    var start := AssTime(c.time);
    var end := AssTime(next.time);
    assert start.Success? && end.Success?;
    DialogueLinesAt(start.value, end.value, c.subtitles, j);
  }

  /** Every line of a cuepoint's block has the ASS clock texts of the
      cuepoint's time and of the next cuepoint's time as its second and
      third fields. */
  lemma AssBlockTimes(c: Cuepoint, next: Cuepoint, id: nat, j: nat)
    requires AssBlockOf(c, next, id).Success? && j < |c.subtitles|
    ensures AssTime(c.time).Success? && AssTime(next.time).Success?
    ensures var f := Split(AssBlockOf(c, next, id).value[j], ',');
            |f| >= 4 && f[1] == AssTime(c.time).value && f[2] == AssTime(next.time).value
  {
    AssBlockLine(c, next, id, j);
    var start := AssTime(c.time).value;
    var end := AssTime(next.time).value;
    AssTimeNoComma(c.time);
    AssTimeNoComma(next.time);
    DialogueFields(start, end, c.subtitles[j], Texts(c.subtitles).value[j]);
  }
}
