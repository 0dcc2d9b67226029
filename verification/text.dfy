/** The small text helpers: `String.prototype.trim`, the display substitutions `dispTimes` and
    `rememberedLocLabel`, and `escapeHtml` with its inverse. */
module Text {

  /** ECMAScript's WhiteSpace and LineTerminator code points, the characters `trim` removes. */
  const Spaces: set<char> :=
    {'\U{9}', '\U{A}', '\U{B}', '\U{C}', '\U{D}', '\U{20}', '\U{A0}', '\U{1680}',
     '\U{2000}', '\U{2001}', '\U{2002}', '\U{2003}', '\U{2004}', '\U{2005}', '\U{2006}',
     '\U{2007}', '\U{2008}', '\U{2009}', '\U{200A}', '\U{2028}', '\U{2029}', '\U{202F}',
     '\U{205F}', '\U{3000}', '\U{FEFF}'}

  predicate IsSpace(c: char) {
    c in Spaces
  }

  predicate AllSpace(s: string) {
    forall k :: 0 <= k < |s| ==> IsSpace(s[k])
  }

  /** No white space at either end. */
  predicate Trimmed(s: string) {
    s == [] || (!IsSpace(s[0]) && !IsSpace(s[|s| - 1]))
  }

  /** `s` with its leading white space removed. */
  function TrimStart(s: string): (r: string)
    ensures |r| <= |s| && r == s[|s| - |r|..]
    ensures forall k :: 0 <= k < |s| - |r| ==> IsSpace(s[k])
    ensures r == [] || !IsSpace(r[0])
    decreases |s|
  {
    if s != [] && IsSpace(s[0]) then
      var r := TrimStart(s[1..]);
      TrimStartStep(s, s[1..], r);
      r
    else s
  }

  /** One leading white-space character more: what `TrimStart` promises for `s[1..]` it
      promises for `s`. */
  lemma TrimStartStep(s: string, tail: string, r: string)
    requires s != [] && IsSpace(s[0]) && tail == s[1..]
    requires |r| <= |tail| && r == tail[|tail| - |r|..]
    requires forall k :: 0 <= k < |tail| - |r| ==> IsSpace(tail[k])
    ensures r == s[|s| - |r|..]
    ensures forall k :: 0 <= k < |s| - |r| ==> IsSpace(s[k])
  {
    assert tail[|tail| - |r|..] == s[|s| - |r|..];
    forall k | 0 <= k < |s| - |r| ensures IsSpace(s[k]) {
      if k > 0 {
        assert s[k] == tail[k - 1];
      }
    }
  }

  /** `s` with its trailing white space removed. */
  function TrimEnd(s: string): (r: string)
    ensures |r| <= |s| && r == s[..|r|]
    ensures forall k :: |r| <= k < |s| ==> IsSpace(s[k])
    ensures r == [] || !IsSpace(r[|r| - 1])
    decreases |s|
  {
    if s != [] && IsSpace(s[|s| - 1]) then
      var r := TrimEnd(s[..|s| - 1]);
      TrimEndStep(s, s[..|s| - 1], r);
      r
    else s
  }

  /** One trailing white-space character more: what `TrimEnd` promises for `s[..|s| - 1]` it
      promises for `s`. */
  lemma TrimEndStep(s: string, init: string, r: string)
    requires s != [] && IsSpace(s[|s| - 1]) && init == s[..|s| - 1]
    requires |r| <= |init| && r == init[..|r|]
    requires forall k :: |r| <= k < |init| ==> IsSpace(init[k])
    ensures r == s[..|r|]
    ensures forall k :: |r| <= k < |s| ==> IsSpace(s[k])
  {
    assert init[..|r|] == s[..|r|];
    forall k | |r| <= k < |s| ensures IsSpace(s[k]) {
      if k < |init| {
        assert s[k] == init[k];
      }
    }
  }

  /** `String.prototype.trim`. */
  function Trim(s: string): (r: string)
    ensures Trimmed(r)
    ensures r == [] <==> AllSpace(s)
    ensures |r| <= |s|
  {
    TrimBothEnds(s);
    TrimEnd(TrimStart(s))
  }

  /** Trimming the start and then the end leaves no white space at either end, and nothing at
      all exactly when everything was white space. */
  lemma TrimBothEnds(s: string)
    ensures var r := TrimEnd(TrimStart(s));
      Trimmed(r) && (r == [] <==> AllSpace(s))
  {
    var t := TrimStart(s);
    var r := TrimEnd(t);
    if r == [] {
      TrimmedAway(s, t);
    } else {
      KeptNonSpace(s, t, r);
    }
  }

  /** When trimming the end removes everything left after trimming the start, all was white
      space. */
  lemma TrimmedAway(s: string, t: string)
    requires t == TrimStart(s) && TrimEnd(t) == []
    ensures AllSpace(s)
  {
    var n := |s| - |t|;
    forall k | 0 <= k < |s| ensures IsSpace(s[k]) {
      if n <= k {
        assert s[k] == t[k - n];
      }
    }
  }

  /** A character survives both halves of trimming only if one was not white space. */
  lemma KeptNonSpace(s: string, t: string, r: string)
    requires t == TrimStart(s) && r == TrimEnd(t) && r != []
    ensures !AllSpace(s)
  {
    var n := |s| - |t|;
    assert t[0] == r[0];
    assert s[n] == t[0];
  }

  /** Trimming characterised: whatever the white-space padding around a trimmed core, the
      result is the core. */
  lemma {:induction false} TrimUnique(lead: string, core: string, trail: string)
    requires AllSpace(lead) && AllSpace(trail) && Trimmed(core)
    ensures Trim(lead + core + trail) == core
    decreases |lead|
  {
    if lead == [] {
      assert lead + core + trail == core + trail;
      TrimTrailing(core, trail);
    } else {
      var c, tl := lead[0], lead[1..];
      assert lead + core + trail == [c] + (tl + core + trail);
      TrimDropLead(c, tl + core + trail);
      AllSpaceTail(lead);
      TrimUnique(tl, core, trail);
    }
  }

  /** Dropping the first character keeps a string all white space. */
  lemma AllSpaceTail(s: string)
    requires AllSpace(s) && s != []
    ensures AllSpace(s[1..])
  {
    var tl := s[1..];
    forall k | 0 <= k < |tl| ensures IsSpace(tl[k]) {
      assert tl[k] == s[k + 1];
    }
  }

  /** Trailing white space after a trimmed core is removed. */
  lemma {:induction false} TrimTrailing(core: string, trail: string)
    requires AllSpace(trail) && Trimmed(core)
    ensures Trim(core + trail) == core
    decreases |trail|
  {
    if trail == [] {
      assert core + trail == core;
      TrimOfTrimmed(core);
    } else {
      var init, c := trail[..|trail| - 1], trail[|trail| - 1];
      assert core + trail == (core + init) + [c];
      TrimDropTrail(core + init, c);
      AllSpaceInit(trail);
      TrimTrailing(core, init);
    }
  }

  /** Dropping the last character keeps a string all white space. */
  lemma AllSpaceInit(s: string)
    requires AllSpace(s) && s != []
    ensures AllSpace(s[..|s| - 1])
  {
    var init := s[..|s| - 1];
    forall k | 0 <= k < |init| ensures IsSpace(init[k]) {
      assert init[k] == s[k];
    }
  }

  /** A leading white-space character makes no difference to trimming. */
  lemma TrimDropLead(c: char, rest: string)
    requires IsSpace(c)
    ensures Trim([c] + rest) == Trim(rest)
  {
    assert ([c] + rest)[0] == c && ([c] + rest)[1..] == rest;
    assert TrimStart([c] + rest) == TrimStart(rest);
  }

  /** A trailing white-space character makes no difference to trimming. */
  lemma TrimDropTrail(rest: string, c: char)
    requires IsSpace(c)
    ensures Trim(rest + [c]) == Trim(rest)
  {
    var s := rest + [c];
    if AllSpace(rest) {
      assert AllSpace(s) by {
        forall k | 0 <= k < |s| ensures IsSpace(s[k]) {
          if k < |rest| {
            assert s[k] == rest[k];
          }
        }
      }
    } else {
      TrimStartAppend(rest, [c]);
      TrimEndDropLast(TrimStart(rest), c);
    }
  }

  /** A trailing white-space character is the first thing `TrimEnd` removes. */
  lemma TrimEndDropLast(u: string, c: char)
    requires IsSpace(c)
    ensures TrimEnd(u + [c]) == TrimEnd(u)
  {
    var v := u + [c];
    assert v[|v| - 1] == c && v[..|v| - 1] == u;
  }

  /** Leading white space lies within `x` when `x` is not all white space. */
  lemma {:induction false} TrimStartAppend(x: string, y: string)
    requires !AllSpace(x)
    ensures TrimStart(x + y) == TrimStart(x) + y
    decreases |x|
  {
    assert (x + y)[0] == x[0];
    if IsSpace(x[0]) {
      assert (x + y)[1..] == x[1..] + y;
      assert !AllSpace(x[1..]) by {
        var k :| 0 <= k < |x| && !IsSpace(x[k]);
        assert x[1..][k - 1] == x[k];
      }
      TrimStartAppend(x[1..], y);
    }
  }

  /** A trimmed string is left alone by both halves of trimming. */
  lemma TrimOfTrimmed(core: string)
    requires Trimmed(core)
    ensures TrimStart(core) == core && TrimEnd(core) == core && Trim(core) == core
  {
  }

  /** Trimming twice is trimming once. */
  lemma TrimIdempotent(s: string)
    ensures Trim(Trim(s)) == Trim(s)
  {
    TrimOfTrimmed(Trim(s));
  }

  /** `dispTimes`: the trimmed text, with "24時間" (24 hours) shown as "1日中" (all day). */
  function DispTimes(s: string): (r: string)
    ensures Trim(s) == "24時間" ==> r == "1日中"
    ensures Trim(s) != "24時間" ==> r == Trim(s)
    ensures r != "24時間"
  {
    var t := Trim(s);
    if t == [] then [] else if t == "24時間" then "1日中" else t
  }

  /** Displaying an already displayed time text changes nothing. */
  lemma DispTimesIdempotent(s: string)
    ensures DispTimes(DispTimes(s)) == DispTimes(s)
  {
    DisplayedTimesTrimmed(s);
    DispTimesOfTrimmed(DispTimes(s));
  }

  /** A displayed time text has no white space at its ends. */
  lemma DisplayedTimesTrimmed(s: string)
    ensures Trimmed(DispTimes(s))
  {
    var d := DispTimes(s);
    if Trim(s) == "24時間" {
      AllDayTrimmed(d);
    }
  }

  /** "1日中" has no white space at its ends. The literal comes in through the requires so that
      the solver indexes a variable rather than the expanded string. */
  lemma AllDayTrimmed(d: string)
    requires d == "1日中"
    ensures Trimmed(d)
  {
    assert d[0] == '1' && d[|d| - 1] == '中';
  }

  /** A trimmed text other than "24時間" is displayed as it is. */
  lemma DispTimesOfTrimmed(d: string)
    requires Trimmed(d) && d != "24時間"
    ensures DispTimes(d) == d
  {
    TrimOfTrimmed(d);
  }

  /** `rememberedLocLabel`: the trimmed text, with "(指定なし)" shown without its parentheses. */
  function RememberedLocLabel(s: string): (r: string)
    ensures Trim(s) == "(指定なし)" ==> r == "指定なし"
    ensures Trim(s) != "(指定なし)" ==> r == Trim(s)
    ensures r != "(指定なし)"
  {
    var t := Trim(s);
    if t == "(指定なし)" then "指定なし" else t
  }

  /** Relabelling an already relabelled location changes nothing. */
  lemma RememberedLocLabelIdempotent(s: string)
    ensures RememberedLocLabel(RememberedLocLabel(s)) == RememberedLocLabel(s)
  {
    RememberedLabelTrimmed(s);
    RememberedLocLabelOfTrimmed(RememberedLocLabel(s));
  }

  /** A relabelled location has no white space at its ends. */
  lemma RememberedLabelTrimmed(s: string)
    ensures Trimmed(RememberedLocLabel(s))
  {
    var d := RememberedLocLabel(s);
    if Trim(s) == "(指定なし)" {
      UnspecifiedTrimmed(d);
    }
  }

  /** "指定なし" has no white space at its ends. The literal comes in through the requires, as in
      `AllDayTrimmed`. */
  lemma UnspecifiedTrimmed(d: string)
    requires d == "指定なし"
    ensures Trimmed(d)
  {
    assert d[0] == '指' && d[|d| - 1] == 'し';
  }

  /** A trimmed location other than "(指定なし)" is shown as it is. */
  lemma RememberedLocLabelOfTrimmed(d: string)
    requires Trimmed(d) && d != "(指定なし)"
    ensures RememberedLocLabel(d) == d
  {
    TrimOfTrimmed(d);
  }

  /** `String.prototype.replaceAll` with a one-character pattern. */
  function ReplaceAllChar(s: string, c: char, rep: string): (r: string)
    ensures c !in rep ==> c !in r
    ensures forall d :: d in r ==> d in s || d in rep
    decreases |s|
  {
    if s == [] then []
    else (if s[0] == c then rep else [s[0]]) + ReplaceAllChar(s[1..], c, rep)
  }

  /** Replacing works piece by piece. */
  lemma {:induction false} ReplaceAllCharAppend(a: string, b: string, c: char, rep: string)
    ensures ReplaceAllChar(a + b, c, rep) == ReplaceAllChar(a, c, rep) + ReplaceAllChar(b, c, rep)
    decreases |a|
  {
    if a == [] {
      assert a + b == b;
    } else {
      assert (a + b)[0] == a[0];
      assert (a + b)[1..] == a[1..] + b;
      ReplaceAllCharAppend(a[1..], b, c, rep);
      var h := if a[0] == c then rep else [a[0]];
      assert ReplaceAllChar(a + b, c, rep) == h + (ReplaceAllChar(a[1..], c, rep) + ReplaceAllChar(b, c, rep));
    }
  }

  /** Replacing in one character. */
  lemma ReplaceAllCharSingle(x: char, c: char, rep: string)
    ensures ReplaceAllChar([x], c, rep) == if x == c then rep else [x]
  {
    assert [x][1..] == [];
    var h := if x == c then rep else [x];
    assert h + [] == h;
  }

  /** Replacing a character that does not occur changes nothing. */
  lemma {:induction false} ReplaceAllCharAbsent(s: string, c: char, rep: string)
    requires c !in s
    ensures ReplaceAllChar(s, c, rep) == s
    decreases |s|
  {
    if s != [] {
      ReplaceAllCharAbsent(s[1..], c, rep);
      assert s == [s[0]] + s[1..];
    }
  }

  /** The entity `escapeHtml` writes for one character. */
  function EscapeChar(c: char): string {
    if c == '&' then "&amp;"
    else if c == '<' then "&lt;"
    else if c == '>' then "&gt;"
    else if c == '"' then "&quot;"
    else if c == '\'' then "&#039;"
    else [c]
  }

  /** Escaping character by character, the reference for `escapeHtml`. */
  function EscapeEach(s: string): (r: string)
    ensures |r| >= |s|
    decreases |s|
  {
    if s == [] then [] else EscapeChar(s[0]) + EscapeEach(s[1..])
  }

  /** `escapeHtml`: five replacements in turn, ampersand first. */
  function EscapeHtml(s: string): (r: string)
    ensures '<' !in r && '>' !in r && '"' !in r && '\'' !in r
  {
    var a := ReplaceAllChar(s, '&', "&amp;");
    var b := ReplaceAllChar(a, '<', "&lt;");
    var c := ReplaceAllChar(b, '>', "&gt;");
    var d := ReplaceAllChar(c, '"', "&quot;");
    ReplaceAllChar(d, '\'', "&#039;")
  }

  /** The chain of replacements on a single character yields that character's entity: no
      later replacement touches what an earlier one wrote. */
  lemma EscapeHtmlChar(c: char)
    ensures EscapeHtml([c]) == EscapeChar(c)
  {
    var amp, lt, gt, quot, apos := "&amp;", "&lt;", "&gt;", "&quot;", "&#039;";
    if c == '&' {
      ReplaceAllCharSingle(c, '&', amp);
      assert '<' !in amp && '>' !in amp && '"' !in amp && '\'' !in amp;
      ReplaceAllCharAbsent(amp, '<', lt);
      ReplaceAllCharAbsent(amp, '>', gt);
      ReplaceAllCharAbsent(amp, '"', quot);
      ReplaceAllCharAbsent(amp, '\'', apos);
    } else if c == '<' {
      ReplaceAllCharSingle(c, '&', amp);
      ReplaceAllCharSingle(c, '<', lt);
      assert '>' !in lt && '"' !in lt && '\'' !in lt;
      ReplaceAllCharAbsent(lt, '>', gt);
      ReplaceAllCharAbsent(lt, '"', quot);
      ReplaceAllCharAbsent(lt, '\'', apos);
    } else if c == '>' {
      ReplaceAllCharSingle(c, '&', amp);
      ReplaceAllCharSingle(c, '<', lt);
      ReplaceAllCharSingle(c, '>', gt);
      assert '"' !in gt && '\'' !in gt;
      ReplaceAllCharAbsent(gt, '"', quot);
      ReplaceAllCharAbsent(gt, '\'', apos);
    } else if c == '"' {
      ReplaceAllCharSingle(c, '&', amp);
      ReplaceAllCharSingle(c, '<', lt);
      ReplaceAllCharSingle(c, '>', gt);
      ReplaceAllCharSingle(c, '"', quot);
      assert '\'' !in quot;
      ReplaceAllCharAbsent(quot, '\'', apos);
    } else {
      ReplaceAllCharSingle(c, '&', amp);
      ReplaceAllCharSingle(c, '<', lt);
      ReplaceAllCharSingle(c, '>', gt);
      ReplaceAllCharSingle(c, '"', quot);
      ReplaceAllCharSingle(c, '\'', apos);
    }
  }

  /** `escapeHtml` works character by character. */
  lemma {:induction false} EscapeHtmlIsPerChar(s: string)
    ensures EscapeHtml(s) == EscapeEach(s)
    decreases |s|
  {
    if s != [] {
      assert s == [s[0]] + s[1..];
      EscapeHtmlChar(s[0]);
      EscapeHtmlIsPerChar(s[1..]);
      EscapeHtmlAppend([s[0]], s[1..]);
    }
  }

  /** `escapeHtml` of a concatenation. */
  lemma EscapeHtmlAppend(x: string, y: string)
    ensures EscapeHtml(x + y) == EscapeHtml(x) + EscapeHtml(y)
  {
    var a1, a2 := ReplaceAllChar(x, '&', "&amp;"), ReplaceAllChar(y, '&', "&amp;");
    ReplaceAllCharAppend(x, y, '&', "&amp;");
    var b1, b2 := ReplaceAllChar(a1, '<', "&lt;"), ReplaceAllChar(a2, '<', "&lt;");
    ReplaceAllCharAppend(a1, a2, '<', "&lt;");
    var c1, c2 := ReplaceAllChar(b1, '>', "&gt;"), ReplaceAllChar(b2, '>', "&gt;");
    ReplaceAllCharAppend(b1, b2, '>', "&gt;");
    var d1, d2 := ReplaceAllChar(c1, '"', "&quot;"), ReplaceAllChar(c2, '"', "&quot;");
    ReplaceAllCharAppend(c1, c2, '"', "&quot;");
    ReplaceAllCharAppend(d1, d2, '\'', "&#039;");
  }

  /** `t` starts with `p`. */
  predicate StartsWith(t: string, p: string) {
    |p| <= |t| && t[..|p|] == p
  }

  /** Decoding the five entities `escapeHtml` writes; any other text is kept as is. */
  function UnescapeHtml(t: string): (r: string)
    ensures |r| <= |t|
    decreases |t|
  {
    if t == [] then []
    else if StartsWith(t, "&amp;") then "&" + UnescapeHtml(t[5..])
    else if StartsWith(t, "&lt;") then "<" + UnescapeHtml(t[4..])
    else if StartsWith(t, "&gt;") then ">" + UnescapeHtml(t[4..])
    else if StartsWith(t, "&quot;") then "\"" + UnescapeHtml(t[6..])
    else if StartsWith(t, "&#039;") then "'" + UnescapeHtml(t[6..])
    else [t[0]] + UnescapeHtml(t[1..])
  }

  /** Decoding undoes one character's escape, whatever follows it. */
  lemma UnescapeChar(c: char, rest: string)
    ensures UnescapeHtml(EscapeChar(c) + rest) == [c] + UnescapeHtml(rest)
  {
    var e := EscapeChar(c);
    var t := e + rest;
    assert t[..|e|] == e;
    assert t[|e|..] == rest;
    if c == '&' {
      assert StartsWith(t, "&amp;");
    } else if c == '<' {
      Differs(t, "&amp;", 1);
      assert StartsWith(t, "&lt;");
    } else if c == '>' {
      Differs(t, "&amp;", 1);
      Differs(t, "&lt;", 1);
      assert StartsWith(t, "&gt;");
    } else if c == '"' {
      Differs(t, "&amp;", 1);
      Differs(t, "&lt;", 1);
      Differs(t, "&gt;", 1);
      assert StartsWith(t, "&quot;");
    } else if c == '\'' {
      Differs(t, "&amp;", 1);
      Differs(t, "&lt;", 1);
      Differs(t, "&gt;", 1);
      Differs(t, "&quot;", 1);
      assert StartsWith(t, "&#039;");
    } else {
      assert e == [c];
      Differs(t, "&amp;", 0);
      Differs(t, "&lt;", 0);
      Differs(t, "&gt;", 0);
      Differs(t, "&quot;", 0);
      Differs(t, "&#039;", 0);
      assert t[1..] == rest;
    }
  }

  /** A text whose `i`-th character differs from a pattern's does not start with it. */
  lemma Differs(t: string, p: string, i: nat)
    requires i < |p| && (i < |t| ==> t[i] != p[i])
    ensures !StartsWith(t, p)
  {
  }

  /** Decoding recovers the original text: `escapeHtml` loses nothing. */
  lemma {:induction false} UnescapeEscape(s: string)
    ensures UnescapeHtml(EscapeHtml(s)) == s
    decreases |s|
  {
    EscapeHtmlIsPerChar(s);
    UnescapeEscapeEach(s);
  }

  lemma {:induction false} UnescapeEscapeEach(s: string)
    ensures UnescapeHtml(EscapeEach(s)) == s
    decreases |s|
  {
    if s != [] {
      UnescapeChar(s[0], EscapeEach(s[1..]));
      UnescapeEscapeEach(s[1..]);
      assert s == [s[0]] + s[1..];
    }
  }

  /** `escapeHtml` is injective: distinct texts never display alike. */
  lemma EscapeHtmlInjective(s: string, t: string)
    requires EscapeHtml(s) == EscapeHtml(t)
    ensures s == t
  {
    UnescapeEscape(s);
    UnescapeEscape(t);
  }
}
