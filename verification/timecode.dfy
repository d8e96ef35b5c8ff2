/** Time codes. The TTML converters turn a cuepoint's "seconds.fraction"
    text into clock text (`to_srt_time`, `to_ass_time`); the overlap fixer's
    helpers turn SRT clock text "h:m:s,ms" into a millisecond count and back
    (`parse_time`, `format_time`, where the count is a timedelta). */
module TimeCode {
  import opened Results
  import opened Text

  /** The ValueError raised by int() or by unpacking a split into the wrong
      number of fields. */
  datatype TimeError = MalformedTimeCode(stamp: string)

  /** Hours, minutes, seconds and fraction, as the source holds them just
      before formatting them into clock text. */
  datatype Clock = Clock(hours: int, minutes: int, seconds: int, fraction: int)

  /** The whole seconds a clock's hour, minute and second fields denote. */
  function ClockSeconds(c: Clock): int {
    c.hours * 3600 + c.minutes * 60 + c.seconds
  }

  /** The milliseconds a clock denotes when its fraction field counts
      milliseconds, as timedelta(hours=, minutes=, seconds=, milliseconds=)
      adds them up. */
  function ClockMillis(c: Clock): int {
    c.hours * 3600000 + c.minutes * 60000 + c.seconds * 1000 + c.fraction
  }

  /** The whole-seconds field of a cuepoint time: "12" in "12.5". */
  function WholeField(stamp: string): string {
    Split(stamp, '.')[0]
  }

  /** The fraction field of a cuepoint time, when the text has a '.'; any
      further '.'-separated fields are ignored. */
  function FractionField(stamp: string): Option<string> {
    var parts := Split(stamp, '.');
    if |parts| >= 2 then Some(parts[1]) else None
  }

  /** The arithmetic shared by to_srt_time and to_ass_time: the whole
      seconds become hours, minutes below 60 and seconds below 60, and the
      fraction digits are kept verbatim as the millisecond field (absent
      fraction: 0). Fails exactly when int() fails on a field. */
  function SecondsToClock(stamp: string): (r: Result<Clock, TimeError>)
    ensures r.Success? <==>
      && ParseInt(WholeField(stamp)).Some?
      && (FractionField(stamp).Some? ==> ParseInt(FractionField(stamp).value).Some?)
    ensures r.Success? ==>
      && 0 <= r.value.minutes < 60
      && 0 <= r.value.seconds < 60
      && ClockSeconds(r.value) == ParseInt(WholeField(stamp)).value
    ensures r.Success? ==>
      r.value.fraction == match FractionField(stamp)
                          case Some(f) => ParseInt(f).value
                          case None => 0
  {
    var parts := Split(stamp, '.');
    var whole :- ParseInt(parts[0]).OrFail(MalformedTimeCode(stamp));
    var fraction :- if |parts| >= 2 then ParseInt(parts[1]).OrFail(MalformedTimeCode(stamp))
                    else Success(0);
    var rest := whole % 3600;
    Success(Clock(whole / 3600, rest / 60, rest % 60, fraction))
  }

  /** The SRT clock layout `{h:02}:{m:02}:{s:02},{ms:03}`, shared by
      to_srt_time and format_time. */
  function SrtClockText(c: Clock): string {
    FormatInt(c.hours, 2) + ":" + FormatInt(c.minutes, 2) + ":" + FormatInt(c.seconds, 2)
      + "," + FormatInt(c.fraction, 3)
  }

  /** The ASS clock layout `{h:01}:{m:02}:{s:02}.{ms:02}` of to_ass_time. */
  function AssClockText(c: Clock): string {
    FormatInt(c.hours, 1) + ":" + FormatInt(c.minutes, 2) + ":" + FormatInt(c.seconds, 2)
      + "." + FormatInt(c.fraction, 2)
  }

  /** to_srt_time: cuepoint seconds text to SRT clock text. */
  function ToSrtTime(stamp: string): Result<string, TimeError> {
    var c :- SecondsToClock(stamp);
    Success(SrtClockText(c))
  }

  /** to_ass_time: cuepoint seconds text to ASS clock text. */
  function ToAssTime(stamp: string): Result<string, TimeError> {
    var c :- SecondsToClock(stamp);
    Success(AssClockText(c))
  }

  /** The four fields parse_time unpacks from "h:m:s,ms", when the text has
      exactly three ':'-fields and the last has exactly two ','-fields. */
  function TimeFields(stamp: string): Option<seq<string>> {
    var p := Split(stamp, ':');
    if |p| != 3 then None
    else
      var q := Split(p[2], ',');
      if |q| != 2 then None else Some([p[0], p[1], q[0], q[1]])
  }

  /** parse_time: SRT clock text to a millisecond count. Each field goes
      through int() and no field is range-checked, so "00:61:00,000" is
      accepted as 61 minutes. */
  function ParseTime(stamp: string): Result<int, TimeError>
  {
    match TimeFields(stamp)
    case None => Failure(MalformedTimeCode(stamp))
    case Some(f) =>
      var h, m, s, ms := ParseInt(f[0]), ParseInt(f[1]), ParseInt(f[2]), ParseInt(f[3]);
      if h.Some? && m.Some? && s.Some? && ms.Some? then
        Success(ClockMillis(Clock(h.value, m.value, s.value, ms.value)))
      else
        Failure(MalformedTimeCode(stamp))
  }

  /** The fields format_time computes from a non-negative duration: hours
      unbounded, minutes and seconds below 60, milliseconds below 1000,
      together summing back to the duration. */
  function MillisToClock(t: nat): (c: Clock)
    ensures c.hours >= 0
    ensures 0 <= c.minutes < 60 && 0 <= c.seconds < 60 && 0 <= c.fraction < 1000
    ensures ClockMillis(c) == t
  {
    var total := t / 1000;
    Clock(total / 3600, (total % 3600) / 60, total % 60, t % 1000)
  }

  /** format_time on a non-negative millisecond count. */
  function FormatTime(t: nat): string {
    SrtClockText(MillisToClock(t))
  }

  /** The zero-padded integer format writes only digits and '-'. */
  lemma FormatIntChars(n: int, w: nat)
    ensures forall k :: 0 <= k < |FormatInt(n, w)| ==> IsDigit(FormatInt(n, w)[k]) || FormatInt(n, w)[k] == '-'
  {
    if n < 0 {
      var d := ZeroPad(NatToString(-n), if w > 0 then w - 1 else 0);
      assert FormatInt(n, w) == "-" + d;
    }
  }

  /** Field text without separators is what parse_time unpacks again. */
  lemma TimeFieldsOf(a: string, b: string, d: string, e: string)
    requires ':' !in a && ':' !in b && ':' !in d && ':' !in e
    requires ',' !in d && ',' !in e
    ensures TimeFields(a + ":" + b + ":" + d + "," + e) == Some([a, b, d, e])
  {
    var tail := d + [','] + e;
    assert a + ":" + b + ":" + d + "," + e == a + [':'] + (b + [':'] + tail);
    SplitAtSep(a, ':', b + [':'] + tail);
    SplitAtSep(b, ':', tail);
    SplitNoSep(tail, ':');
    SplitAtSep(d, ',', e);
    SplitNoSep(e, ',');
  }

  /** parse_time's value once its four fields are known to parse. */
  lemma ParseTimeOfFields(x: string, a: string, b: string, d: string, e: string,
                          h: int, m: int, s: int, ms: int)
    requires TimeFields(x) == Some([a, b, d, e])
    requires ParseInt(a) == Some(h) && ParseInt(b) == Some(m)
    requires ParseInt(d) == Some(s) && ParseInt(e) == Some(ms)
    ensures ParseTime(x) == Success(ClockMillis(Clock(h, m, s, ms)))
  {
  }

  /** parse_time on text laid out as "a:b:d,e" with separator-free fields:
      it succeeds exactly when int() accepts all four fields, and the count
      is then their millisecond sum, minutes and seconds not range-checked. */
  lemma ParseTimeOfText(a: string, b: string, d: string, e: string)
    requires ':' !in a && ':' !in b && ':' !in d && ':' !in e
    requires ',' !in d && ',' !in e
    ensures ParseTime(a + ":" + b + ":" + d + "," + e).Success? <==>
      ParseInt(a).Some? && ParseInt(b).Some? && ParseInt(d).Some? && ParseInt(e).Some?
    ensures ParseTime(a + ":" + b + ":" + d + "," + e).Success? ==>
      ParseTime(a + ":" + b + ":" + d + "," + e).value
      == ClockMillis(Clock(ParseInt(a).value, ParseInt(b).value, ParseInt(d).value, ParseInt(e).value))
  {
    TimeFieldsOf(a, b, d, e);
  }

  /** parse_time rejects text without exactly two ':', and text whose part
      after the second ':' does not hold exactly one ','. Together with
      ParseTimeOfText this covers every input. */
  lemma ParseTimeRejects(t: string)
    ensures CountChar(t, ':') != 2 ==> ParseTime(t).Failure?
    ensures |Split(t, ':')| == 3 && CountChar(Split(t, ':')[2], ',') != 1 ==> ParseTime(t).Failure?
  {
    SplitCount(t, ':');
    if |Split(t, ':')| == 3 {
      SplitCount(Split(t, ':')[2], ',');
    }
  }

  /** The zero-padded integer format writes no clock separator. */
  lemma FormatIntNoSeparator(n: int, w: nat)
    ensures ':' !in FormatInt(n, w) && ',' !in FormatInt(n, w)
  {
    FormatIntChars(n, w);
  }

  /** parse_time reads SRT clock text back as the millisecond sum of its
      fields, whatever the fields' signs and ranges. */
  lemma ParseSrtClockText(c: Clock)
    ensures ParseTime(SrtClockText(c)) == Success(ClockMillis(c))
  {
    var a, b, d, e := FormatInt(c.hours, 2), FormatInt(c.minutes, 2), FormatInt(c.seconds, 2), FormatInt(c.fraction, 3);
    FormatIntNoSeparator(c.hours, 2);
    FormatIntNoSeparator(c.minutes, 2);
    FormatIntNoSeparator(c.seconds, 2);
    FormatIntNoSeparator(c.fraction, 3);
    TimeFieldsOf(a, b, d, e);
    FormatIntRoundTrip(c.hours, 2);
    FormatIntRoundTrip(c.minutes, 2);
    FormatIntRoundTrip(c.seconds, 2);
    FormatIntRoundTrip(c.fraction, 3);
    ParseTimeOfFields(SrtClockText(c), a, b, d, e, c.hours, c.minutes, c.seconds, c.fraction);
    assert Clock(c.hours, c.minutes, c.seconds, c.fraction) == c;
  }

  /** parse_time inverts format_time on every non-negative duration. */
  lemma FormatTimeRoundTrip(t: nat)
    ensures ParseTime(FormatTime(t)) == Success(t)
  {
    ParseSrtClockText(MillisToClock(t));
  }

  /** A count of whole seconds plus a millisecond count. */
  function SecondsMillis(seconds: int, millis: int): int {
    seconds * 1000 + millis
  }

  lemma ClockMillisSplit(c: Clock)
    ensures ClockMillis(c) == SecondsMillis(ClockSeconds(c), c.fraction)
  {
  }

  /** What an SRT time produced by to_srt_time denotes when parse_time
      reads it back: the whole seconds in milliseconds plus the fraction
      digits taken as a millisecond count, not as a decimal fraction. */
  lemma ToSrtTimeMeaning(stamp: string)
    requires ToSrtTime(stamp).Success?
    ensures ParseTime(ToSrtTime(stamp).value)
            == Success(SecondsMillis(ParseInt(WholeField(stamp)).value, SecondsToClock(stamp).value.fraction))
  {
    var c := SecondsToClock(stamp).value;
    ParseSrtClockText(c);
    ClockMillisSplit(c);
  }

  /** A time written as whole seconds, '.', and fraction digits. */
  lemma SecondsToClockOf(w: string, f: string)
    requires IsDigits(w) && IsDigits(f)
    ensures var s := DigitsValue(w);
      SecondsToClock(w + "." + f) == Success(Clock(s / 3600, s % 3600 / 60, s % 3600 % 60, DigitsValue(f)))
  {
    assert '.' !in w && '.' !in f by {
      assert forall k :: 0 <= k < |w| ==> IsDigit(w[k]);
      assert forall k :: 0 <= k < |f| ==> IsDigit(f[k]);
    }
    assert w + "." + f == w + ['.'] + f;
    SplitAtSep(w, '.', f);
    SplitNoSep(f, '.');
    ParseIntDigits(w);
    ParseIntDigits(f);
  }

  /** The SRT clock text of an in-range clock is fixed-width: two-digit
      hours, minutes and seconds and a three-digit millisecond field, at
      fixed positions around ':', ':' and ','. */
  lemma SrtClockLayout(c: Clock)
    requires 0 <= c.hours < 100 && 0 <= c.minutes < 60 && 0 <= c.seconds < 60
    requires 0 <= c.fraction < 1000
    ensures |SrtClockText(c)| == 12
    ensures SrtClockText(c)[2] == ':' && SrtClockText(c)[5] == ':' && SrtClockText(c)[8] == ','
    ensures IsDigits(SrtClockText(c)[..2]) && DigitsValue(SrtClockText(c)[..2]) == c.hours
    ensures IsDigits(SrtClockText(c)[3..5]) && DigitsValue(SrtClockText(c)[3..5]) == c.minutes
    ensures IsDigits(SrtClockText(c)[6..8]) && DigitsValue(SrtClockText(c)[6..8]) == c.seconds
    ensures IsDigits(SrtClockText(c)[9..]) && DigitsValue(SrtClockText(c)[9..]) == c.fraction
  {
    assert Pow10(2) == 100 && Pow10(3) == 1000;
    var h, m, s, f := FormatInt(c.hours, 2), FormatInt(c.minutes, 2), FormatInt(c.seconds, 2), FormatInt(c.fraction, 3);
    FormatIntWidth(c.hours, 2);
    FormatIntWidth(c.minutes, 2);
    FormatIntWidth(c.seconds, 2);
    FormatIntWidth(c.fraction, 3);
    var t := SrtClockText(c);
    assert t == h + ":" + m + ":" + s + "," + f;
    assert t[..2] == h && t[3..5] == m && t[6..8] == s && t[9..] == f;
  }

  /** The ASS clock text of a clock under ten hours is fixed-width: a
      one-digit hour, two-digit minutes and seconds and a two-digit
      fraction, at fixed positions around ':', ':' and '.'. */
  lemma AssClockLayout(c: Clock)
    requires 0 <= c.hours < 10 && 0 <= c.minutes < 60 && 0 <= c.seconds < 60
    requires 0 <= c.fraction < 100
    ensures |AssClockText(c)| == 10
    ensures AssClockText(c)[1] == ':' && AssClockText(c)[4] == ':' && AssClockText(c)[7] == '.'
    ensures IsDigits(AssClockText(c)[..1]) && DigitsValue(AssClockText(c)[..1]) == c.hours
    ensures IsDigits(AssClockText(c)[2..4]) && DigitsValue(AssClockText(c)[2..4]) == c.minutes
    ensures IsDigits(AssClockText(c)[5..7]) && DigitsValue(AssClockText(c)[5..7]) == c.seconds
    ensures IsDigits(AssClockText(c)[8..]) && DigitsValue(AssClockText(c)[8..]) == c.fraction
  {
    assert Pow10(1) == 10 && Pow10(2) == 100;
    var h, m, s, f := FormatInt(c.hours, 1), FormatInt(c.minutes, 2), FormatInt(c.seconds, 2), FormatInt(c.fraction, 2);
    FormatIntWidth(c.hours, 1);
    FormatIntWidth(c.minutes, 2);
    FormatIntWidth(c.seconds, 2);
    FormatIntWidth(c.fraction, 2);
    var t := AssClockText(c);
    assert t == h + ":" + m + ":" + s + "." + f;
    assert t[..1] == h && t[2..4] == m && t[5..7] == s && t[8..] == f;
  }

  /** Reads ASS clock text "h:mm:ss.ff" back into its four fields, each
      through int(); the inverse of AssClockText. */
  function ReadAssClock(t: string): Option<Clock> {
    var p := Split(t, ':');
    if |p| != 3 then None
    else
      var q := Split(p[2], '.');
      if |q| != 2 then None
      else
        var h, m, s, f := ParseInt(p[0]), ParseInt(p[1]), ParseInt(q[0]), ParseInt(q[1]);
        if h.Some? && m.Some? && s.Some? && f.Some? then Some(Clock(h.value, m.value, s.value, f.value))
        else None
  }

  /** Separator-free fields joined as "a:b:d.e" split back into them. */
  lemma AssFieldsOf(a: string, b: string, d: string, e: string)
    requires forall k :: 0 <= k < |a| ==> IsDigit(a[k]) || a[k] == '-'
    requires forall k :: 0 <= k < |b| ==> IsDigit(b[k]) || b[k] == '-'
    requires forall k :: 0 <= k < |d| ==> IsDigit(d[k]) || d[k] == '-'
    requires forall k :: 0 <= k < |e| ==> IsDigit(e[k]) || e[k] == '-'
    ensures Split(a + ":" + b + ":" + d + "." + e, ':') == [a, b, d + "." + e]
    ensures Split(d + "." + e, '.') == [d, e]
  {
    assert ':' !in a && ':' !in b && ':' !in d && ':' !in e && '.' !in d && '.' !in e;
    var tail := d + ['.'] + e;
    assert a + ":" + b + ":" + d + "." + e == a + [':'] + (b + [':'] + tail);
    SplitAtSep(a, ':', b + [':'] + tail);
    SplitAtSep(b, ':', tail);
    SplitNoSep(tail, ':');
    SplitAtSep(d, '.', e);
    SplitNoSep(e, '.');
  }

  /** ASS clock text reads back as the clock it was written from, whatever
      the fields' signs and ranges. */
  lemma ReadAssClockText(c: Clock)
    ensures ReadAssClock(AssClockText(c)) == Some(c)
  {
    var a, b, d, e := FormatInt(c.hours, 1), FormatInt(c.minutes, 2), FormatInt(c.seconds, 2), FormatInt(c.fraction, 2);
    FormatIntChars(c.hours, 1);
    FormatIntChars(c.minutes, 2);
    FormatIntChars(c.seconds, 2);
    FormatIntChars(c.fraction, 2);
    AssFieldsOf(a, b, d, e);
    FormatIntRoundTrip(c.hours, 1);
    FormatIntRoundTrip(c.minutes, 2);
    FormatIntRoundTrip(c.seconds, 2);
    FormatIntRoundTrip(c.fraction, 2);
  }

  /** to_ass_time's text reads back as the clock of the cuepoint seconds:
      whole seconds split into hours, minutes under 60 and seconds under 60,
      and the fraction digits' value. */
  lemma ToAssTimeReadBack(stamp: string)
    ensures ToAssTime(stamp).Success? <==> SecondsToClock(stamp).Success?
    ensures ToAssTime(stamp).Success? ==>
      var c := SecondsToClock(stamp).value;
      ReadAssClock(ToAssTime(stamp).value) == Some(c)
      && ClockSeconds(c) == ParseInt(WholeField(stamp)).value
      && 0 <= c.minutes < 60 && 0 <= c.seconds < 60
  {
    if SecondsToClock(stamp).Success? {
      ReadAssClockText(SecondsToClock(stamp).value);
    }
  }

  /** The fraction digits are read as a millisecond count: "12.5" becomes
      a time that parse_time reads back as twelve seconds and five
      milliseconds, not twelve and a half seconds. */
  lemma ToSrtTimeExample(w: string, f: string)
    requires w == "12" && f == "5"
    ensures SecondsToClock(w + "." + f) == Success(Clock(0, 0, 12, 5))
    ensures ToSrtTime(w + "." + f).Success?
    ensures ParseTime(ToSrtTime(w + "." + f).value) == Success(12005)
    ensures ToSrtTime(w + "." + f) == Success("00:00:12,005")
  {
    ClockTextExamples();
    assert IsDigits(w) && IsDigits(f);
    assert DigitsValue(f) == 5 by {
      assert f[..0] == [];
    }
    assert DigitsValue(w) == 12 by {
      var one := w[..1];
      assert one[..0] == [];
      assert DigitsValue(one) == 1;
    }
    SecondsToClockOf(w, f);
    var sec := 12;
    assert sec / 3600 == 0 && sec % 3600 / 60 == 0 && sec % 3600 % 60 == 12;
    assert SecondsToClock(w + "." + f) == Success(Clock(sec / 3600, sec % 3600 / 60, sec % 3600 % 60, 5));
    ToSrtTimeMeaning(w + "." + f);
  }

  /** The SRT and ASS texts of the clock 0:00:12 with fraction 5. */
  lemma ClockTextExamples()
    ensures SrtClockText(Clock(0, 0, 12, 5)) == "00:00:12,005"
    ensures AssClockText(Clock(0, 0, 12, 5)) == "0:00:12.05"
  {
    SmallFields();
  }

  /** The zero-padded fields of the clock 0:00:12 with fraction 5. */
  lemma SmallFields()
    ensures FormatInt(0, 1) == "0" && FormatInt(0, 2) == "00"
    ensures FormatInt(12, 2) == "12"
    ensures FormatInt(5, 2) == "05" && FormatInt(5, 3) == "005"
  {
    assert NatToString(0) == "0" && NatToString(5) == "5";
    assert NatToString(12) == NatToString(1) + "2";
    assert ZeroPad("0", 2) == ZeroPad("00", 2);
    assert ZeroPad("5", 3) == ZeroPad("05", 3) == ZeroPad("005", 3);
  }

  /** "12.5" becomes "0:00:12.05" in ASS: the fraction digits' value 5 is
      written as two digits, which ASS reads as five hundredths. */
  lemma ToAssTimeExample(w: string, f: string)
    requires w == "12" && f == "5"
    ensures ToAssTime(w + "." + f) == Success("0:00:12.05")
    ensures ReadAssClock(ToAssTime(w + "." + f).value) == Some(Clock(0, 0, 12, 5))
  {
    ToSrtTimeExample(w, f);
    ClockTextExamples();
    ReadAssClockText(Clock(0, 0, 12, 5));
  }
}
