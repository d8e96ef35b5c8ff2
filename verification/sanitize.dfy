/** The text cleaners: clean_ass_text, which deletes ASS override groups
    such as {\pos(320,240)}, and the three rewrites clean_srt_file applies
    to a file's content. Python's `re` is modelled by the scan each pattern
    performs: left to right, non-overlapping, `.` matching anything but a
    line feed. */
module Sanitize {
  import opened Results
  import opened Text

  // ---------------------------------------------------------------------
  // clean_ass_text: re.sub(r"\{\\.*?\}", "", text), then strip
  // ---------------------------------------------------------------------

  /** Where the lazy `.*?\}` of an override group ends in the text after
      its opening "{\": the first '}', provided no line feed comes before
      it. */
  function GroupClose(t: string): (r: Option<nat>)
    ensures r.Some? ==> r.value < |t| && t[r.value] == '}'
    ensures r.Some? ==> forall j :: 0 <= j < r.value ==> t[j] != '}' && t[j] != '\n'
  {
    if t == [] then None
    else if t[0] == '}' then Some(0)
    else if t[0] == '\n' then None
    else
      match GroupClose(t[1..])
      case Some(n) => Some(n + 1)
      case None => None
  }

  /** When no group closes, every '}' comes after a line feed. */
  lemma {:induction false} GroupCloseMissing(t: string)
    requires GroupClose(t).None?
    ensures forall j :: 0 <= j < |t| && t[j] == '}' ==> exists i :: 0 <= i < j && t[i] == '\n'
  {
    if t != [] && t[0] != '\n' {
      GroupCloseMissing(t[1..]);
      forall j | 0 <= j < |t| && t[j] == '}'
        ensures exists i :: 0 <= i < j && t[i] == '\n'
      {
        assert j >= 1 && t[1..][j - 1] == '}';
        var i :| 0 <= i < j - 1 && t[1..][i] == '\n';
        assert t[i + 1] == '\n';
      }
    }
  }

  /** Does an override group start here? */
  predicate OpensGroup(s: string) {
    |s| >= 2 && s[0] == '{' && s[1] == '\\'
  }

  /** The text with every override group removed. A group is "{\", then
      anything but a line feed, up to the first '}'; a "{\" with no such
      '}' is kept as text and the scan moves on by one character. Line
      feeds are never removed, so removal never joins lines. */
  function StripOverrides(s: string): (r: string)
    ensures |r| <= |s|
    decreases |s|
  {
    if s == [] then []
    else if OpensGroup(s) && GroupClose(s[2..]).Some? then
      StripOverrides(s[GroupClose(s[2..]).value + 3..])
    else
      [s[0]] + StripOverrides(s[1..])
  }

  /** Removal only takes characters away. */
  lemma {:induction false} StripOverridesShrinks(s: string)
    ensures multiset(StripOverrides(s)) <= multiset(s)
    decreases |s|
  {
    if s == [] {
    } else if OpensGroup(s) && GroupClose(s[2..]).Some? {
      var n := GroupClose(s[2..]).value;
      assert StripOverrides(s) == StripOverrides(s[n + 3..]);
      GroupRemoved(s, n);
      StripOverridesShrinks(s[n + 3..]);
    } else {
      var r := StripOverrides(s[1..]);
      assert StripOverrides(s) == [s[0]] + r;
      StripOverridesShrinks(s[1..]);
      assert s == [s[0]] + s[1..];
      assert multiset([s[0]] + r) == multiset([s[0]]) + multiset(r);
      assert multiset(s) == multiset([s[0]]) + multiset(s[1..]);
    }
  }

  /** Removal never takes a line feed away, so the text keeps its line
      count. */
  lemma {:induction false} StripOverridesKeepsLines(s: string)
    ensures multiset(StripOverrides(s))['\n'] == multiset(s)['\n']
    decreases |s|
  {
    if s == [] {
    } else if OpensGroup(s) && GroupClose(s[2..]).Some? {
      var n := GroupClose(s[2..]).value;
      assert StripOverrides(s) == StripOverrides(s[n + 3..]);
      GroupRemoved(s, n);
      StripOverridesKeepsLines(s[n + 3..]);
    } else {
      var r := StripOverrides(s[1..]);
      StripOverridesKeepsLines(s[1..]);
      assert s == [s[0]] + s[1..];
      assert StripOverrides(s) == [s[0]] + r;
    }
  }

  /** What a removed group consists of: "{\", text without a line feed,
      and '}'. */
  lemma GroupRemoved(s: string, n: nat)
    requires OpensGroup(s) && GroupClose(s[2..]) == Some(n)
    ensures n + 3 <= |s|
    ensures multiset(s[n + 3..]) <= multiset(s)
    ensures multiset(s[n + 3..])['\n'] == multiset(s)['\n']
  {
    var g := s[..n + 3];
    assert s == g + s[n + 3..];
    assert '\n' !in g by {
      forall j | 0 <= j < |g|
        ensures g[j] != '\n'
      {
        if j >= 2 {
          assert g[j] == s[2..][j - 2];
        }
      }
    }
    assert multiset(g)['\n'] == 0;
  }

  /** clean_ass_text as defined at the end of the file (an earlier
      definition is shadowed): remove override groups, then strip. */
  function CleanAssText(text: string): (r: string)
    ensures IsStripped(r)
    ensures |r| <= |text|
  {
    Strip(StripOverrides(text))
  }

  /** Text without a '{' passes through unchanged. */
  lemma {:induction false} PlainPrefix(a: string, rest: string)
    requires '{' !in a
    ensures StripOverrides(a + rest) == a + StripOverrides(rest)
  {
    if a == [] {
      assert a + rest == rest;
    } else {
      var s := a + rest;
      assert s[0] == a[0] && s[0] != '{';
      assert !OpensGroup(s);
      assert s[1..] == a[1..] + rest;
      PlainPrefix(a[1..], rest);
      var tail := StripOverrides(a[1..] + rest);
      assert StripOverrides(s) == [a[0]] + tail;
      assert tail == a[1..] + StripOverrides(rest);
      assert [a[0]] + (a[1..] + StripOverrides(rest)) == ([a[0]] + a[1..]) + StripOverrides(rest);
      assert a == [a[0]] + a[1..];
    }
  }

  /** A whole group on one line is removed together with its braces. */
  lemma GroupDeleted(m: string, rest: string)
    requires '}' !in m && '\n' !in m
    ensures StripOverrides("{\\" + m + "}" + rest) == StripOverrides(rest)
  {
    var s := "{\\" + m + "}" + rest;
    var t := s[2..];
    assert t == m + "}" + rest;
    GroupCloseAfter(m, rest);
    assert s[|m| + 3..] == rest;
  }

  /** The group after "{\" closes at the first '}'. */
  lemma {:induction false} GroupCloseAfter(m: string, rest: string)
    requires '}' !in m && '\n' !in m
    ensures GroupClose(m + "}" + rest) == Some(|m|)
  {
    if m != [] {
      assert (m + "}" + rest)[1..] == m[1..] + "}" + rest;
      GroupCloseAfter(m[1..], rest);
    }
  }

  /** One group between two plain runs of text: the runs are joined and
      the group is gone. */
  lemma GroupBetween(a: string, m: string, b: string)
    requires '{' !in a && '{' !in b && '}' !in m && '\n' !in m
    ensures StripOverrides(a + ("{\\" + m + "}" + b)) == a + b
  {
    PlainPrefix(a, "{\\" + m + "}" + b);
    GroupDeleted(m, b);
    assert b + [] == b;
    PlainPrefix(b, []);
  }

  /** The example the function's comment promises. */
  lemma CleanAssTextExample(a: string, m: string, b: string)
    requires a == "Hello " && m == "pos(100,200)" && b == "World"
    ensures CleanAssText(a + "{\\" + m + "}" + b) == "Hello World"
  {
    assert '{' !in a && '{' !in b && '}' !in m && '\n' !in m;
    assert a + "{\\" + m + "}" + b == a + ("{\\" + m + "}" + b);
    GroupBetween(a, m, b);
    var r := a + b;
    assert r == "Hello World";
    assert IsStripped(r);
    StripStripped(r);
  }

  /** A '{' before a group: the group is removed and the '{' kept. */
  lemma BraceBeforeGroup(m: string, rest: string)
    requires '}' !in m && '\n' !in m
    ensures StripOverrides("{" + ("{\\" + m + "}" + rest)) == "{" + StripOverrides(rest)
  {
    var s := "{" + ("{\\" + m + "}" + rest);
    assert !OpensGroup(s);
    assert s[1..] == "{\\" + m + "}" + rest;
    GroupDeleted(m, rest);
  }

  /** Text without a '{' is left as it is. */
  lemma PlainText(a: string)
    requires '{' !in a
    ensures StripOverrides(a) == a
  {
    PlainPrefix(a, []);
    assert a + [] == a;
  }

  /** A lone group disappears. */
  lemma GroupAlone(m: string)
    requires '}' !in m && '\n' !in m
    ensures StripOverrides("{\\" + m + "}") == []
  {
    GroupDeleted(m, []);
    assert "{\\" + m + "}" + [] == "{\\" + m + "}";
  }

  /** Removal is not idempotent: deleting an inner group can complete an
      outer one, which a second pass then deletes; "{{\\a}\\b}" becomes
      "{\\b}" and then nothing. */
  lemma StripOverridesTwice(m: string, n: string, text: string)
    requires '}' !in m && '\n' !in m
    requires '}' !in n && '\n' !in n && '{' !in n
    requires text == "{" + ("{\\" + m + "}" + ("\\" + n + "}"))
    ensures StripOverrides(text) == "{\\" + n + "}"
    ensures StripOverrides(StripOverrides(text)) == []
  {
    var tail := "\\" + n + "}";
    assert '{' !in tail;
    PlainText(tail);
    BraceBeforeGroup(m, tail);
    BracesMeet(n);
    GroupAlone(n);
  }

  /** "{" followed by "\\n}" is the group "{\\n}". */
  lemma BracesMeet(n: string)
    ensures "{" + ("\\" + n + "}") == "{\\" + n + "}"
  {
    var a, b := "{" + ("\\" + n + "}"), "{\\" + n + "}";
    assert |a| == |b|;
    forall i | 0 <= i < |a|
      ensures a[i] == b[i]
    {
      if i >= 2 {
        assert a[i] == ("\\" + n + "}")[i - 1];
      }
    }
  }

  // ---------------------------------------------------------------------
  // clean_srt_file's content rewrites
  // ---------------------------------------------------------------------

  /** The characters the class [\\h📱🔊📺] matches: a backslash, the letter
      h, and the mobile phone, loudspeaker and television emoji. */
  predicate Unwanted(c: char) {
    c == '\\' || c == 'h' || c == '\U{1F4F1}' || c == '\U{1F50A}' || c == '\U{1F4FA}'
  }

  /** re.sub(r'[\\h📱🔊📺]', '', content): every unwanted character is
      dropped, everything else kept in order. */
  function DropUnwanted(s: string): (r: string)
    ensures forall i :: 0 <= i < |r| ==> !Unwanted(r[i])
    ensures |r| <= |s|
  {
    if s == [] then []
    else if Unwanted(s[0]) then DropUnwanted(s[1..])
    else [s[0]] + DropUnwanted(s[1..])
  }

  /** Dropping works character by character, so it splits over a
      concatenation. */
  lemma {:induction false} DropUnwantedConcat(a: string, b: string)
    ensures DropUnwanted(a + b) == DropUnwanted(a) + DropUnwanted(b)
  {
    if a == [] {
      assert a + b == b;
    } else {
      var s := a + b;
      assert s[0] == a[0] && s[1..] == a[1..] + b;
      DropUnwantedConcat(a[1..], b);
      var x, y := DropUnwanted(a[1..]), DropUnwanted(b);
      if !Unwanted(a[0]) {
        assert DropUnwanted(s) == [a[0]] + (x + y);
        assert DropUnwanted(a) == [a[0]] + x;
        assert [a[0]] + (x + y) == ([a[0]] + x) + y;
      }
    }
  }

  /** Exactly the wanted characters of the input survive. */
  lemma {:induction false} DropUnwantedKeeps(s: string, c: char)
    ensures c in DropUnwanted(s) <==> c in s && !Unwanted(c)
  {
    if s != [] {
      DropUnwantedKeeps(s[1..], c);
      assert s == [s[0]] + s[1..];
    }
  }

  /** A second pass finds nothing to drop. */
  lemma {:induction false} DropUnwantedIdempotent(s: string)
    ensures DropUnwanted(DropUnwanted(s)) == DropUnwanted(s)
  {
    if s != [] {
      DropUnwantedIdempotent(s[1..]);
      if !Unwanted(s[0]) {
        var r := DropUnwanted(s[1..]);
        assert ([s[0]] + r)[1..] == r;
      }
    }
  }

  /** Dropping never adds a character. */
  lemma {:induction false} DropUnwantedShrinks(s: string)
    ensures multiset(DropUnwanted(s)) <= multiset(s)
  {
    if s != [] {
      DropUnwantedShrinks(s[1..]);
      assert s == [s[0]] + s[1..];
    }
  }

  const TimestampMapKey: string := "X-TIMESTAMP-MAP="

  /** The length of a line's text before its line feed, or None when the
      text has no line feed. */
  function LineLength(t: string): (r: Option<nat>)
    ensures r.Some? ==> r.value < |t| && t[r.value] == '\n' && '\n' !in t[..r.value]
    ensures r.None? ==> '\n' !in t
  {
    if t == [] then None
    else if t[0] == '\n' then Some(0)
    else
      match LineLength(t[1..])
      case Some(n) =>
        assert t[..n + 1] == [t[0]] + t[1..][..n];
        Some(n + 1)
      case None =>
        assert t == [t[0]] + t[1..];
        None
  }

  /** re.sub(r"X-TIMESTAMP-MAP=.+\n", "", content): the key, at least one
      character before the next line feed, and that line feed are removed.
      The greedy `.+` cannot cross a line feed, so a match always ends at
      the first one; a key right before a line feed, or with no line feed
      after it, is kept. */
  function DropTimestampMaps(s: string): (r: string)
    ensures multiset(r) <= multiset(s)
    decreases |s|
  {
    if s == [] then []
    else if StartsWith(s, TimestampMapKey) && MapLineEnd(s).Some? then
      var rest := s[MapLineEnd(s).value..];
      MapLineRemoved(s);
      DropTimestampMaps(rest)
    else
      assert s == [s[0]] + s[1..];
      [s[0]] + DropTimestampMaps(s[1..])
  }

  /** Where a timestamp-map match starting at the front of `s` ends: just
      past the line feed that closes it. */
  function MapLineEnd(s: string): (r: Option<nat>)
    requires StartsWith(s, TimestampMapKey)
    ensures r.Some? ==> |TimestampMapKey| < r.value <= |s|
  {
    var k := |TimestampMapKey|;
    match LineLength(s[k..])
    case Some(n) => if n >= 1 then Some(k + n + 1) else None
    case None => None
  }

  /** A removed timestamp-map line takes characters away and adds none. */
  lemma MapLineRemoved(s: string)
    requires StartsWith(s, TimestampMapKey) && MapLineEnd(s).Some?
    ensures multiset(s[MapLineEnd(s).value..]) <= multiset(s)
  {
    var e := MapLineEnd(s).value;
    assert s == s[..e] + s[e..];
  }

  /** A timestamp-map line is removed whole, key and line feed included. */
  lemma MapLineDeleted(v: string, rest: string)
    requires v != [] && '\n' !in v
    ensures DropTimestampMaps(TimestampMapKey + v + "\n" + rest) == DropTimestampMaps(rest)
  {
    var s := TimestampMapKey + v + "\n" + rest;
    var k := |TimestampMapKey|;
    assert s[..k] == TimestampMapKey;
    assert s[k..] == v + "\n" + rest;
    LineLengthOf(v, rest);
    assert s[k + |v| + 1..] == rest;
  }

  /** Text in which no key can start is left as it is. */
  lemma {:induction false} NoMapUnchanged(s: string)
    requires 'X' !in s
    ensures DropTimestampMaps(s) == s
  {
    if s != [] {
      assert !StartsWith(s, TimestampMapKey) by {
        assert s[0] != 'X';
        assert TimestampMapKey[0] == 'X';
      }
      NoMapUnchanged(s[1..]);
      assert s == [s[0]] + s[1..];
    }
  }

  /** A line's length is read up to its line feed. */
  lemma {:induction false} LineLengthOf(v: string, rest: string)
    requires '\n' !in v
    ensures LineLength(v + "\n" + rest) == Some(|v|)
  {
    if v != [] {
      assert (v + "\n" + rest)[1..] == v[1..] + "\n" + rest;
      LineLengthOf(v[1..], rest);
    }
  }

  /** The content transform of clean_srt_file: drop the unwanted
      characters, remove every "WEBVTT" header line, then remove every
      timestamp-map line. No unwanted character survives, and nothing is
      added. */
  function CleanSrtContent(content: string): (r: string)
    ensures forall i :: 0 <= i < |r| ==> !Unwanted(r[i])
    ensures multiset(r) <= multiset(content)
  {
    var dropped := DropUnwanted(content);
    var noHeader := ReplaceAll(dropped, "WEBVTT\n", "");
    var r := DropTimestampMaps(noHeader);
    RemoveAllShrinks(dropped, "WEBVTT\n");
    DropUnwantedShrinks(content);
    forall i | 0 <= i < |r|
      ensures !Unwanted(r[i])
    {
      assert r[i] in multiset(r);
      assert r[i] in multiset(dropped);
    }
    r
  }
}
