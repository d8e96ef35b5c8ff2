/** Python's string primitives as the caption tools use them, restated over
    `seq<char>`: str.strip(), str.split(sep), sep.join(parts), the `in`
    substring test, str.isdigit() (ASCII digits only), int() on decimal
    text, and the zero-padded integer format `f'{n:0w}'`. */
module Text {
  import opened Results

  /** Python's str.isspace() for one code point. */
  predicate IsSpace(c: char) {
    || c == ' '
    || ('\t' <= c <= '\r')
    || ('\U{1c}' <= c <= '\U{1f}')
    || c == '\U{85}' || c == '\U{a0}' || c == '\U{1680}'
    || ('\U{2000}' <= c <= '\U{200a}')
    || c == '\U{2028}' || c == '\U{2029}' || c == '\U{202f}'
    || c == '\U{205f}' || c == '\U{3000}'
  }

  /** Neither end of `s` is whitespace. */
  predicate IsStripped(s: string) {
    s == [] || (!IsSpace(s[0]) && !IsSpace(s[|s| - 1]))
  }

  /** Number of whitespace characters at the front of `s`. */
  function LeadingSpace(s: string): (n: nat)
    ensures n <= |s|
    ensures forall i :: 0 <= i < n ==> IsSpace(s[i])
    ensures n == |s| || !IsSpace(s[n])
  {
    if s != [] && IsSpace(s[0]) then 1 + LeadingSpace(s[1..]) else 0
  }

  /** Length of `s` once its trailing whitespace is dropped. */
  function KeptLength(s: string): (m: nat)
    ensures m <= |s|
    ensures forall i :: m <= i < |s| ==> IsSpace(s[i])
    ensures m == 0 || !IsSpace(s[m - 1])
  {
    if s != [] && IsSpace(s[|s| - 1]) then KeptLength(s[..|s| - 1]) else |s|
  }

  /** Python's str.strip() with no argument: the slice of `s` left once
      whitespace is removed from both ends. */
  function Strip(s: string): (r: string)
    ensures IsStripped(r)
    ensures LeadingSpace(s) + |r| <= |s|
    ensures r == s[LeadingSpace(s)..LeadingSpace(s) + |r|]
    ensures forall i :: LeadingSpace(s) + |r| <= i < |s| ==> IsSpace(s[i])
  {
    var t := s[LeadingSpace(s)..];
    t[..KeptLength(t)]
  }

  /** Stripping text whose ends are not whitespace changes nothing; in
      particular Strip is idempotent. */
  lemma StripStripped(s: string)
    requires IsStripped(s)
    ensures Strip(s) == s
  {
    if s != [] {
      assert LeadingSpace(s) == 0;
    }
  }

  lemma StripIdempotent(s: string)
    ensures Strip(Strip(s)) == Strip(s)
  {
    StripStripped(Strip(s));
  }

  /** Strip yields the empty string exactly when `s` is all whitespace. */
  lemma StripEmpty(s: string)
    ensures Strip(s) == [] <==> forall i :: 0 <= i < |s| ==> IsSpace(s[i])
  {
    if Strip(s) == [] {
      forall i | 0 <= i < |s|
        ensures IsSpace(s[i])
      {
        if i >= LeadingSpace(s) {
          assert LeadingSpace(s) + |Strip(s)| <= i;
        }
      }
    }
  }

  /** Python's `prefix` test, s.startswith(prefix). */
  predicate StartsWith(s: string, prefix: string) {
    |prefix| <= |s| && s[..|prefix|] == prefix
  }

  /** Python's substring test `sub in s`. */
  predicate Contains(s: string, sub: string) {
    StartsWith(s, sub) || (s != [] && Contains(s[1..], sub))
  }

  /** Every character of a contained string occurs in the container. */
  lemma {:induction false} ContainsChars(s: string, sub: string, c: char)
    requires Contains(s, sub)
    requires c in sub
    ensures c in s
  {
    if StartsWith(s, sub) {
      assert sub == s[..|sub|];
    } else {
      ContainsChars(s[1..], sub, c);
    }
  }

  predicate IsDigit(c: char) {
    '0' <= c <= '9'
  }

  predicate AllDigits(s: string) {
    forall i :: 0 <= i < |s| ==> IsDigit(s[i])
  }

  /** Python's str.isdigit(), restricted to the ASCII digits. */
  predicate IsDigits(s: string) {
    s != [] && AllDigits(s)
  }

  /** The number a string of decimal digits denotes (0 for the empty string). */
  function DigitsValue(s: string): nat
    requires AllDigits(s)
  {
    if s == [] then 0 else DigitsValue(s[..|s| - 1]) * 10 + (s[|s| - 1] as int - '0' as int)
  }

  function DigitChar(d: nat): (c: char)
    requires d < 10
    ensures IsDigit(c) && c as int - '0' as int == d
  {
    ('0' as int + d) as char
  }

  /** Decimal text of `n` without leading zeros, as str(n) gives it. */
  function NatToString(n: nat): (r: string)
    ensures IsDigits(r)
    ensures DigitsValue(r) == n
    ensures r[0] == '0' ==> r == "0"
  {
    if n < 10 then [DigitChar(n)]
    else
      var r := NatToString(n / 10) + [DigitChar(n % 10)];
      assert r[..|r| - 1] == NatToString(n / 10);
      r
  }

  /** A leading zero does not change a digit string's value. */
  lemma {:induction false} LeadingZero(s: string)
    requires AllDigits(s)
    ensures AllDigits(['0'] + s)
    ensures DigitsValue(['0'] + s) == DigitsValue(s)
  {
    if s != [] {
      var t := ['0'] + s;
      assert t[..|t| - 1] == ['0'] + s[..|s| - 1];
      LeadingZero(s[..|s| - 1]);
    }
  }

  /** Left-pads `s` with '0' up to width `w`, as the format spec `0w` does. */
  function ZeroPad(s: string, w: nat): (r: string)
    ensures |r| == if |s| >= w then |s| else w
    ensures AllDigits(s) ==> AllDigits(r) && DigitsValue(r) == DigitsValue(s)
    decreases w - |s|
  {
    if |s| >= w then s
    else
      if AllDigits(s) then LeadingZero(s); ZeroPad(['0'] + s, w)
      else ZeroPad(['0'] + s, w)
  }

  /** Python's f'{n:0w}': the decimal text of `n` zero-padded to width `w`,
      where a minus sign counts toward the width. */
  function FormatInt(n: int, w: nat): (r: string)
    ensures n >= 0 ==> IsDigits(r)
    ensures n >= 0 ==> |r| == if |NatToString(n)| >= w then |NatToString(n)| else w
  {
    if n < 0 then "-" + ZeroPad(NatToString(-n), if w > 0 then w - 1 else 0)
    else ZeroPad(NatToString(n), w)
  }

  /** Python's int(s) on decimal text: surrounding whitespace, an optional
      sign, then one or more ASCII digits. Anything else raises ValueError,
      modelled as None. */
  function ParseInt(s: string): (r: Option<int>)
  {
    var t := Strip(s);
    if t != [] && (t[0] == '-' || t[0] == '+') then
      if IsDigits(t[1..]) then
        var v: int := DigitsValue(t[1..]);
        Some(if t[0] == '-' then -v else v)
      else None
    else if IsDigits(t) then
      Some(DigitsValue(t))
    else None
  }

  /** int() on a plain digit string is the string's decimal value. */
  lemma ParseIntDigits(s: string)
    requires IsDigits(s)
    ensures ParseInt(s) == Some(DigitsValue(s))
  {
    StripStripped(s);
  }

  /** int() reads back what the zero-padded format wrote, for every integer. */
  lemma FormatIntRoundTrip(n: int, w: nat)
    ensures ParseInt(FormatInt(n, w)) == Some(n)
  {
    var r := FormatInt(n, w);
    if n < 0 {
      var d := ZeroPad(NatToString(-n), if w > 0 then w - 1 else 0);
      assert r == "-" + d && r[1..] == d;
      assert IsStripped(r);
      StripStripped(r);
    } else {
      assert IsStripped(r);
      StripStripped(r);
    }
  }

  /** Python's s.split(sep) for a one-character separator: the pieces
      between separators, always at least one. */
  function Split(s: string, sep: char): (r: seq<string>)
    ensures |r| >= 1
    ensures forall k :: 0 <= k < |r| ==> sep !in r[k]
  {
    if s == [] then [[]]
    else
      var rest := Split(s[1..], sep);
      if s[0] == sep then [[]] + rest
      else [[s[0]] + rest[0]] + rest[1..]
  }

  /** Python's sep.join(parts). */
  function Join(sep: string, parts: seq<string>): string
  {
    if parts == [] then []
    else if |parts| == 1 then parts[0]
    else parts[0] + sep + Join(sep, parts[1..])
  }

  /** A piece without the separator splits to itself. */
  lemma {:induction false} SplitNoSep(a: string, sep: char)
    requires sep !in a
    ensures Split(a, sep) == [a]
  {
    if a != [] {
      SplitNoSep(a[1..], sep);
      assert [a[0]] + a[1..] == a;
    }
  }

  /** The first separator ends the first piece. */
  lemma {:induction false} SplitAtSep(a: string, sep: char, b: string)
    requires sep !in a
    ensures Split(a + [sep] + b, sep) == [a] + Split(b, sep)
  {
    if a == [] {
      assert (a + [sep] + b)[1..] == b;
    } else {
      assert (a + [sep] + b)[1..] == a[1..] + [sep] + b;
      SplitAtSep(a[1..], sep, b);
      assert [a[0]] + a[1..] == a;
    }
  }

  /** How many times `c` occurs in `s`. */
  function CountChar(s: string, c: char): nat {
    if s == [] then 0 else (if s[0] == c then 1 else 0) + CountChar(s[1..], c)
  }

  /** A split has one piece more than the text has separators. */
  lemma {:induction false} SplitCount(s: string, sep: char)
    ensures |Split(s, sep)| == CountChar(s, sep) + 1
  {
    if s != [] {
      SplitCount(s[1..], sep);
    }
  }

  /** 10 to the power `k`. */
  function Pow10(k: nat): (p: nat)
    ensures p >= 1
  {
    if k == 0 then 1 else 10 * Pow10(k - 1)
  }

  /** A number below 10^w has at most `w` decimal digits. */
  lemma {:induction false} NatToStringShort(n: nat, w: nat)
    requires 1 <= w && n < Pow10(w)
    ensures |NatToString(n)| <= w
  {
    if n >= 10 {
      NatToStringShort(n / 10, w - 1);
    }
  }

  /** f'{n:0w}' on a number below 10^w is exactly `w` digits denoting `n`. */
  lemma FormatIntWidth(n: nat, w: nat)
    requires 1 <= w && n < Pow10(w)
    ensures |FormatInt(n, w)| == w
    ensures IsDigits(FormatInt(n, w)) && DigitsValue(FormatInt(n, w)) == n
  {
    NatToStringShort(n, w);
  }

  /** Joining the pieces of a split restores the text. */
  lemma {:induction false} JoinSplit(s: string, sep: char)
    ensures Join([sep], Split(s, sep)) == s
  {
    if s != [] {
      JoinSplit(s[1..], sep);
      var rest := Split(s[1..], sep);
      if s[0] == sep {
        assert Split(s, sep) == [[]] + rest;
        assert s == [sep] + s[1..];
      } else {
        var r := Split(s, sep);
        assert r[0] == [s[0]] + rest[0] && r[1..] == rest[1..];
        if |rest| == 1 {
          assert s == [s[0]] + rest[0];
        } else {
          assert Join([sep], rest) == rest[0] + [sep] + Join([sep], rest[1..]);
          assert s == [s[0]] + s[1..];
        }
      }
    }
  }

  /** Splitting joined pieces that do not contain the separator gives the
      pieces back. */
  lemma {:induction false} SplitJoin(parts: seq<string>, sep: char)
    requires parts != []
    requires forall k :: 0 <= k < |parts| ==> sep !in parts[k]
    ensures Split(Join([sep], parts), sep) == parts
  {
    if |parts| == 1 {
      SplitNoSep(parts[0], sep);
    } else {
      SplitJoin(parts[1..], sep);
      SplitAtSep(parts[0], sep, Join([sep], parts[1..]));
      assert [parts[0]] + parts[1..] == parts;
    }
  }

  /** A separator splits the text into the pieces on either side of it. */
  lemma {:induction false} SplitConcat(a: string, sep: char, b: string)
    ensures Split(a + [sep] + b, sep) == Split(a, sep) + Split(b, sep)
  {
    if a == [] {
      assert a + [sep] + b == [sep] + b;
      assert ([sep] + b)[1..] == b;
    } else {
      assert (a + [sep] + b)[1..] == a[1..] + [sep] + b;
      SplitConcat(a[1..], sep, b);
    }
  }

  /** Stripping skips a leading whitespace character. */
  lemma StripSpaceFront(c: char, s: string)
    requires IsSpace(c)
    ensures Strip([c] + s) == Strip(s)
  {
    var t := [c] + s;
    assert t[1..] == s;
    assert LeadingSpace(t) == 1 + LeadingSpace(s);
    assert t[LeadingSpace(t)..] == s[LeadingSpace(s)..];
  }

  /** The line boundaries of Python's str.splitlines(). */
  predicate IsLineBreak(c: char) {
    || c == '\n' || c == '\r' || c == '\U{0b}' || c == '\U{0c}'
    || c == '\U{1c}' || c == '\U{1d}' || c == '\U{1e}' || c == '\U{85}'
    || c == '\U{2028}' || c == '\U{2029}'
  }

  predicate NoBreak(s: string) {
    forall i :: 0 <= i < |s| ==> !IsLineBreak(s[i])
  }

  /** Position of the first line boundary in `s`, or |s| if there is none. */
  function BreakIndex(s: string): (n: nat)
    ensures n <= |s|
    ensures NoBreak(s[..n])
    ensures n < |s| ==> IsLineBreak(s[n])
  {
    if s == [] || IsLineBreak(s[0]) then 0
    else
      var n := 1 + BreakIndex(s[1..]);
      assert s[..n] == [s[0]] + s[1..][..n - 1];
      n
  }

  /** Python's str.splitlines(): the lines of `s` without their boundaries,
      where "\r\n" is one boundary and a final boundary does not open an
      empty last line. */
  function SplitLines(s: string): (r: seq<string>)
    ensures forall k :: 0 <= k < |r| ==> NoBreak(r[k])
    ensures s == [] <==> r == []
    decreases |s|
  {
    if s == [] then []
    else
      var n := BreakIndex(s);
      if n == |s| then [s]
      else
        var w := if s[n] == '\r' && n + 1 < |s| && s[n + 1] == '\n' then 2 else 1;
        [s[..n]] + SplitLines(s[n + w..])
  }

  /** Text without a line boundary is one line. */
  lemma SplitLinesOne(s: string)
    requires s != [] && NoBreak(s)
    ensures SplitLines(s) == [s]
  {
  }

  /** Python's s.replace(pat, rep): every occurrence of `pat`, scanning left
      to right without overlaps, replaced by `rep`. */
  function ReplaceAll(s: string, pat: string, rep: string): (r: string)
    requires pat != []
    ensures |rep| <= |pat| ==> |r| <= |s|
    decreases |s|
  {
    if s == [] then []
    else if StartsWith(s, pat) then rep + ReplaceAll(s[|pat|..], pat, rep)
    else [s[0]] + ReplaceAll(s[1..], pat, rep)
  }

  /** Replacing a string that does not occur changes nothing. */
  lemma {:induction false} ReplaceAbsent(s: string, pat: string, rep: string)
    requires pat != [] && !Contains(s, pat)
    ensures ReplaceAll(s, pat, rep) == s
    decreases |s|
  {
    if s != [] {
      ReplaceAbsent(s[1..], pat, rep);
      assert [s[0]] + s[1..] == s;
    }
  }

  /** Deleting occurrences only removes characters. */
  lemma {:induction false} RemoveAllShrinks(s: string, pat: string)
    requires pat != []
    ensures multiset(ReplaceAll(s, pat, [])) <= multiset(s)
    decreases |s|
  {
    if s != [] {
      if StartsWith(s, pat) {
        RemoveAllShrinks(s[|pat|..], pat);
        assert s == s[..|pat|] + s[|pat|..];
      } else {
        RemoveAllShrinks(s[1..], pat);
        assert s == [s[0]] + s[1..];
      }
    }
  }

  /** The first line boundary after a boundary-free prefix. */
  lemma {:induction false} BreakIndexAfter(a: string, rest: string)
    requires NoBreak(a)
    ensures BreakIndex(a + rest) == |a| + BreakIndex(rest)
    decreases |a|
  {
    if a != [] {
      assert (a + rest)[1..] == a[1..] + rest;
      BreakIndexAfter(a[1..], rest);
    } else {
      assert a + rest == rest;
    }
  }

  /** Two lines joined by '\n' split back into the two lines. */
  lemma SplitLinesTwo(a: string, b: string)
    requires NoBreak(a) && NoBreak(b) && b != []
    ensures SplitLines(a + "\n" + b) == [a, b]
  {
    var t := a + "\n" + b;
    BreakIndexAfter(a, "\n" + b);
    assert t[|a|] == '\n';
    assert t[..|a|] == a && t[|a| + 1..] == b;
    SplitLinesOne(b);
  }

  /** Replacement leaves alone a prefix in which no occurrence starts. */
  lemma {:induction false} ReplaceAfterPrefix(x: string, y: string, pat: string, rep: string)
    requires pat != []
    requires forall i :: 0 <= i < |x| ==> !StartsWith((x + y)[i..], pat)
    ensures ReplaceAll(x + y, pat, rep) == x + ReplaceAll(y, pat, rep)
    decreases |x|
  {
    if x == [] {
      assert x + y == y;
    } else {
      var s := x + y;
      assert s[0..] == s;
      assert s[1..] == x[1..] + y;
      forall i | 0 <= i < |x[1..]| ensures !StartsWith((x[1..] + y)[i..], pat) {
        assert (x[1..] + y)[i..] == s[i + 1..];
      }
      ReplaceAfterPrefix(x[1..], y, pat, rep);
    }
  }

  /** Every line boundary is whitespace to str.strip(). */
  lemma LineBreakIsSpace(c: char)
    ensures IsLineBreak(c) ==> IsSpace(c)
  {
  }

  /** A line followed by '\n' comes off the front of splitlines(). */
  lemma SplitLinesCons(a: string, rest: string)
    requires NoBreak(a)
    ensures SplitLines(a + "\n" + rest) == [a] + SplitLines(rest)
  {
    var t := a + "\n" + rest;
    assert t == a + ("\n" + rest);
    BreakIndexAfter(a, "\n" + rest);
    assert BreakIndex("\n" + rest) == 0;
    assert t[|a|] == '\n';
    assert t[..|a|] == a && t[|a| + 1..] == rest;
  }

  /** Text that ends in no line boundary ends its last line: the last line
      is non-empty and ends with the text's last character. */
  lemma {:induction false} SplitLinesLast(s: string)
    requires s != [] && !IsLineBreak(s[|s| - 1])
    ensures var r := SplitLines(s);
      r[|r| - 1] != [] && r[|r| - 1][|r[|r| - 1]| - 1] == s[|s| - 1]
    decreases |s|
  {
    var n := BreakIndex(s);
    if n < |s| {
      var rest := SplitLinesRest(s);
      SplitLinesLast(rest);
      var r, q := SplitLines(s), SplitLines(rest);
      assert q != [] && r[|r| - 1] == q[|q| - 1];
    }
  }

  /** What is left after the first line of text that ends in no line
      boundary: a non-empty suffix with the same last character. */
  lemma SplitLinesRest(s: string) returns (rest: string)
    requires s != [] && !IsLineBreak(s[|s| - 1]) && BreakIndex(s) < |s|
    ensures rest != [] && |rest| < |s| && rest[|rest| - 1] == s[|s| - 1]
    ensures SplitLines(s) == [s[..BreakIndex(s)]] + SplitLines(rest)
  {
    var n := BreakIndex(s);
    assert IsLineBreak(s[n]) && n < |s| - 1;
    var w := if s[n] == '\r' && n + 1 < |s| && s[n + 1] == '\n' then 2 else 1;
    assert n + w < |s|;
    rest := s[n + w..];
  }

  /** Text that starts with no whitespace starts its first line with the
      same character. */
  lemma SplitLinesFirst(s: string)
    requires s != [] && !IsSpace(s[0])
    ensures SplitLines(s)[0] != [] && SplitLines(s)[0][0] == s[0]
  {
    LineBreakIsSpace(s[0]);
    assert BreakIndex(s) > 0;
  }

  /** Pieces without line boundaries, joined with a separator without
      them, contain none. */
  lemma {:induction false} JoinNoBreak(sep: string, parts: seq<string>)
    requires NoBreak(sep)
    requires forall k :: 0 <= k < |parts| ==> NoBreak(parts[k])
    ensures NoBreak(Join(sep, parts))
  {
    if |parts| > 1 {
      JoinNoBreak(sep, parts[1..]);
      var j := Join(sep, parts);
      var x, y := parts[0] + sep, Join(sep, parts[1..]);
      assert j == x + y;
      forall i | 0 <= i < |j| ensures !IsLineBreak(j[i]) {
        if i < |parts[0]| {
          assert j[i] == parts[0][i];
        } else if i < |x| {
          assert j[i] == sep[i - |parts[0]|];
        } else {
          assert j[i] == y[i - |x|];
        }
      }
    }
  }

  /** A join starts with the first piece's first character and ends with
      the last piece's last character, when those pieces are non-empty. */
  lemma {:induction false} JoinEnds(sep: string, parts: seq<string>)
    requires parts != [] && parts[0] != [] && parts[|parts| - 1] != []
    ensures Join(sep, parts) != []
    ensures Join(sep, parts)[0] == parts[0][0]
    ensures Join(sep, parts)[|Join(sep, parts)| - 1] == parts[|parts| - 1][|parts[|parts| - 1]| - 1]
  {
    if |parts| > 1 {
      var rest := parts[1..];
      assert rest[|rest| - 1] == parts[|parts| - 1];
      if rest[0] == [] && |rest| == 1 {
        assert false;
      }
      if rest[0] != [] {
        JoinEnds(sep, rest);
      } else {
        JoinLast(sep, rest);
      }
    }
  }

  /** A join of several pieces ends like its last piece. */
  lemma {:induction false} JoinLast(sep: string, parts: seq<string>)
    requires parts != [] && parts[|parts| - 1] != []
    ensures Join(sep, parts) != []
    ensures Join(sep, parts)[|Join(sep, parts)| - 1] == parts[|parts| - 1][|parts[|parts| - 1]| - 1]
  {
    if |parts| > 1 {
      var rest := parts[1..];
      assert rest[|rest| - 1] == parts[|parts| - 1];
      JoinLast(sep, rest);
    }
  }

  /** A line, a blank line and another line. */
  lemma SplitLinesBlank(a: string, b: string)
    requires NoBreak(a) && NoBreak(b) && b != []
    ensures SplitLines(a + "\n\n" + b) == [a, "", b]
  {
    assert a + "\n\n" + b == a + "\n" + ("" + "\n" + b);
    SplitLinesCons(a, "" + "\n" + b);
    SplitLinesTwo("", b);
  }
}
