/** The text preparation, field matching and value parsing of GenericExtractionEngine,
    and the spots × duration rule both engines apply. */
module GenericFields {
  import opened Wrappers
  import opened JavaText
  import opened Regex
  import opened Entities
  import opened ExtractedRows

  // ─── preprocessText ──────────────────────────────────────────────────────

  predicate IsInvisible(c: char) {
    c == '\U{200B}' || c == '\U{200C}' || c == '\U{200D}' || c == '\U{FEFF}'
  }

  predicate IsSpaceOrTab(c: char) {
    c == ' ' || c == '\t'
  }

  predicate NoDoubleSpace(s: string) {
    forall i :: 0 <= i < |s| - 1 ==> !(s[i] == ' ' && s[i + 1] == ' ')
  }

  /** replaceAll("\\r\\n", "\n"). */
  function ReplaceCrLf(s: string): (r: string)
    ensures forall c :: c in r ==> c in s
    ensures s == "\r\n" ==> r == "\n"
    ensures |s| == 1 ==> r == s
    decreases |s|
  {
    if |s| >= 2 && s[0] == '\r' && s[1] == '\n' then
      var t := ReplaceCrLf(s[2..]);
      assert forall c :: c in t ==> c in s by {
        forall c | c in t ensures c in s {
          var k :| 0 <= k < |s[2..]| && s[2..][k] == c;
          assert s[k + 2] == c;
        }
      }
      "\n" + t
    else if s == [] then []
    else
      var t := ReplaceCrLf(s[1..]);
      assert forall c :: c in t ==> c in s by {
        forall c | c in t ensures c in s {
          var k :| 0 <= k < |s[1..]| && s[1..][k] == c;
          assert s[k + 1] == c;
        }
      }
      [s[0]] + t
  }

  /** replaceAll("\\r", "\n"). */
  function ReplaceCr(s: string): (r: string)
    ensures |r| == |s|
    ensures forall i :: 0 <= i < |s| ==> r[i] == if s[i] == '\r' then '\n' else s[i]
  {
    if s == [] then [] else [if s[0] == '\r' then '\n' else s[0]] + ReplaceCr(s[1..])
  }

  /** replaceAll("[\\u200B-\\u200D\\uFEFF]", ""). */
  function RemoveInvisible(s: string): (r: string)
    ensures forall c :: c in r ==> c in s && !IsInvisible(c)
    ensures |s| == 1 ==> r == if IsInvisible(s[0]) then [] else s
  {
    if s == [] then []
    else (if IsInvisible(s[0]) then [] else [s[0]]) + RemoveInvisible(s[1..])
  }

  function LeadingSpacesOrTabs(s: string): (n: nat)
    ensures 1 <= n <= |s| || (n == 0 && (s == [] || !IsSpaceOrTab(s[0])))
    ensures forall i :: 0 <= i < n ==> IsSpaceOrTab(s[i])
    ensures n < |s| ==> !IsSpaceOrTab(s[n])
    decreases |s|
  {
    if s != [] && IsSpaceOrTab(s[0]) then 1 + LeadingSpacesOrTabs(s[1..]) else 0
  }

  /** replaceAll("[ \\t]+", " "): each run of spaces and tabs becomes one space. */
  function CollapseSpacesAndTabs(s: string): (r: string)
    ensures '\t' !in r
    ensures NoDoubleSpace(r)
    ensures forall c :: c in r ==> c in s || c == ' '
    ensures s != [] ==> r != [] && (r[0] == s[0] || (IsSpaceOrTab(s[0]) && r[0] == ' '))
    ensures r != [] && r[0] == ' ' ==> s != [] && IsSpaceOrTab(s[0])
    decreases |s|
  {
    if s == [] then []
    else if IsSpaceOrTab(s[0]) then
      var n := LeadingSpacesOrTabs(s);
      var t := CollapseSpacesAndTabs(s[n..]);
      assert forall c :: c in t ==> c in s || c == ' ' by {
        forall c | c in t && c != ' ' ensures c in s {
          var k :| 0 <= k < |s[n..]| && s[n..][k] == c;
          assert s[n + k] == c;
        }
      }
      " " + t
    else
      var t := CollapseSpacesAndTabs(s[1..]);
      assert forall c :: c in t ==> c in s || c == ' ' by {
        forall c | c in t && c != ' ' ensures c in s {
          var k :| 0 <= k < |s[1..]| && s[1..][k] == c;
          assert s[1 + k] == c;
        }
      }
      [s[0]] + t
  }

  /** The replacement works on CRLF pairs only: cutting a text anywhere but inside
      such a pair lets each part be rewritten on its own. */
  lemma {:induction false} ReplaceCrLfConcat(a: string, b: string)
    requires a == [] || b == [] || a[|a| - 1] != '\r' || b[0] != '\n'
    ensures ReplaceCrLf(a + b) == ReplaceCrLf(a) + ReplaceCrLf(b)
    decreases |a|
  {
    if a == [] {
      assert a + b == b;
    } else if |a| >= 2 && a[0] == '\r' && a[1] == '\n' {
      assert (a + b)[0] == '\r' && (a + b)[1] == '\n' && (a + b)[2..] == a[2..] + b;
      ReplaceCrLfConcat(a[2..], b);
      AppendAssoc("\n", ReplaceCrLf(a[2..]), ReplaceCrLf(b));
    } else {
      assert (a + b)[0] == a[0] && (a + b)[1..] == a[1..] + b;
      assert !(|a + b| >= 2 && (a + b)[0] == '\r' && (a + b)[1] == '\n') by {
        if |a| == 1 && b != [] {
          assert (a + b)[1] == b[0];
        } else if |a| >= 2 {
          assert (a + b)[1] == a[1];
        }
      }
      ReplaceCrLfConcat(a[1..], b);
      AppendAssoc([a[0]], ReplaceCrLf(a[1..]), ReplaceCrLf(b));
    }
  }

  /** Removal works character by character. */
  lemma {:induction false} RemoveInvisibleConcat(a: string, b: string)
    ensures RemoveInvisible(a + b) == RemoveInvisible(a) + RemoveInvisible(b)
    decreases |a|
  {
    if a == [] {
      assert a + b == b;
    } else {
      assert (a + b)[0] == a[0] && (a + b)[1..] == a[1..] + b;
      RemoveInvisibleConcat(a[1..], b);
      var head := if IsInvisible(a[0]) then [] else [a[0]];
      AppendAssoc(head, RemoveInvisible(a[1..]), RemoveInvisible(b));
    }
  }

  /** Cutting a text where no run of spaces and tabs is split lets each part
      collapse on its own. */
  lemma {:induction false} CollapseSpacesAndTabsConcat(a: string, b: string)
    requires a == [] || b == [] || !IsSpaceOrTab(a[|a| - 1]) || !IsSpaceOrTab(b[0])
    ensures CollapseSpacesAndTabs(a + b) == CollapseSpacesAndTabs(a) + CollapseSpacesAndTabs(b)
    decreases |a|
  {
    if a == [] {
      assert a + b == b;
    } else if b == [] {
      assert a + b == a;
    } else if !IsSpaceOrTab(a[0]) {
      var t := a[1..];
      assert (a + b)[0] == a[0] && (a + b)[1..] == t + b;
      CollapseSpacesAndTabsConcat(t, b);
      AppendAssoc([a[0]], CollapseSpacesAndTabs(t), CollapseSpacesAndTabs(b));
    } else {
      var m := LeadingSpacesOrTabs(a);
      var n := LeadingSpacesOrTabs(a + b);
      assert forall i :: 0 <= i < |a| ==> (a + b)[i] == a[i];
      if m < |a| {
        assert n == m by {
          assert (a + b)[m] == a[m];
          assert forall i :: 0 <= i < m ==> IsSpaceOrTab((a + b)[i]);
        }
        assert (a + b)[m..] == a[m..] + b;
        CollapseSpacesAndTabsConcat(a[m..], b);
        AppendAssoc(" ", CollapseSpacesAndTabs(a[m..]), CollapseSpacesAndTabs(b));
      } else {
        assert (a + b)[|a|] == b[0];
        assert n == |a| by {
          assert forall i :: 0 <= i < |a| ==> IsSpaceOrTab((a + b)[i]);
        }
        assert (a + b)[n..] == b;
        assert a[m..] == [];
      }
    }
  }

  /** Each maximal run of spaces and tabs becomes exactly one space, in place: the
      text on either side of a run collapses on its own. */
  lemma CollapseSpacesAndTabsRun(a: string, w: string, b: string)
    requires a == [] || !IsSpaceOrTab(a[|a| - 1])
    requires w != [] && forall i :: 0 <= i < |w| ==> IsSpaceOrTab(w[i])
    requires b == [] || !IsSpaceOrTab(b[0])
    ensures CollapseSpacesAndTabs(a + w + b) == CollapseSpacesAndTabs(a) + " " + CollapseSpacesAndTabs(b)
  {
    CollapseSpacesAndTabsConcat(a + w, b);
    CollapseSpacesAndTabsConcat(a, w);
    assert CollapseSpacesAndTabs(w) == " " by {
      assert LeadingSpacesOrTabs(w) == |w|;
      assert w[|w|..] == [];
    }
  }

  /** A text without tabs or double spaces comes back unchanged. */
  lemma {:induction false} CollapseSpacesAndTabsKeeps(s: string)
    requires '\t' !in s && NoDoubleSpace(s)
    ensures CollapseSpacesAndTabs(s) == s
    decreases |s|
  {
    if s != [] {
      NoDoubleSpaceSuffix(s, 1);
      assert '\t' !in s[1..];
      CollapseSpacesAndTabsKeeps(s[1..]);
      if IsSpaceOrTab(s[0]) {
        assert LeadingSpacesOrTabs(s) == 1 by {
          assert |s| > 1 ==> !IsSpaceOrTab(s[1]);
        }
      }
    }
  }

  function NewlineCount(s: string): (n: nat)
    ensures n <= |s|
    ensures n > 0 ==> '\n' in s
    decreases |s|
  {
    if s == [] then 0 else (if s[0] == '\n' then 1 else 0) + NewlineCount(s[1..])
  }

  /** The index just past the last '\n' of `s`. */
  function AfterLastNewline(s: string): (e: nat)
    requires '\n' in s
    ensures 1 <= e <= |s| && s[e - 1] == '\n'
    ensures forall i :: e <= i < |s| ==> s[i] != '\n'
    decreases |s|
  {
    if s[|s| - 1] == '\n' then |s|
    else
      assert '\n' in s[..|s| - 1] by {
        var k :| 0 <= k < |s| && s[k] == '\n';
        assert s[..|s| - 1][k] == '\n';
      }
      AfterLastNewline(s[..|s| - 1])
  }

  lemma NoDoubleSpaceSuffix(s: string, k: nat)
    requires NoDoubleSpace(s) && k <= |s|
    ensures NoDoubleSpace(s[k..])
  {
    var t := s[k..];
    forall i | 0 <= i < |t| - 1 ensures !(t[i] == ' ' && t[i + 1] == ' ') {
      assert t[i] == s[k + i] && t[i + 1] == s[k + i + 1];
    }
  }

  /** Where the match of `\n\s*\n\s*\n` that starts at s[0] ends, or 1 when no
      match starts there: a match needs s[0] to be a line feed and the run of `\s`
      characters it opens to hold at least three line feeds, and it ends just past
      the last of them. */
  function BlankRunEnd(s: string): (e: nat)
    requires s != []
    ensures 1 <= e <= |s|
    ensures e > 1 ==> s[0] == '\n'
  {
    var n := LeadingRegexSpaces(s);
    if s[0] == '\n' && NewlineCount(s[..n]) >= 3 then AfterLastNewline(s[..n]) else 1
  }

  /** replaceAll("\\n\\s*\\n\\s*\\n", "\n\n"): scanning left to right, a '\n' whose
      run of `\s` characters holds at least three line feeds is replaced, up to and
      including the last line feed of that run, by two line feeds. */
  function CollapseBlankLines(s: string): (r: string)
    decreases |s|
  {
    if s == [] then []
    else
      var e := BlankRunEnd(s);
      var t := CollapseBlankLines(s[e..]);
      if e > 1 then "\n\n" + t else [s[0]] + t
  }

  /** Collapsing blank lines keeps the first character. */
  lemma CollapseBlankLinesFirst(s: string)
    requires s != []
    ensures CollapseBlankLines(s) != [] && CollapseBlankLines(s)[0] == s[0]
  {
  }

  /** Collapsing blank lines introduces no character other than line feeds that
      stand where line feeds stood. */
  lemma {:induction false} CollapseBlankLinesChars(s: string)
    ensures forall c :: c in CollapseBlankLines(s) ==> c in s
    decreases |s|
  {
    if s != [] {
      var e := BlankRunEnd(s);
      var t := CollapseBlankLines(s[e..]);
      CollapseBlankLinesChars(s[e..]);
      forall c | c in t ensures c in s {
        var k :| 0 <= k < |s[e..]| && s[e..][k] == c;
        assert s[e + k] == c;
      }
      assert CollapseBlankLines(s) == if e > 1 then "\n\n" + t else [s[0]] + t;
    }
  }

  /** Collapsing blank lines creates no pair of spaces. */
  lemma {:induction false} CollapseBlankLinesNoDoubleSpace(s: string)
    requires NoDoubleSpace(s)
    ensures NoDoubleSpace(CollapseBlankLines(s))
    decreases |s|
  {
    if s != [] {
      var e := BlankRunEnd(s);
      var t := CollapseBlankLines(s[e..]);
      NoDoubleSpaceSuffix(s, e);
      CollapseBlankLinesNoDoubleSpace(s[e..]);
      if e > 1 {
        NoDoubleSpaceCons('\n', t);
        NoDoubleSpaceCons('\n', ['\n'] + t);
        assert "\n\n" + t == ['\n'] + (['\n'] + t);
      } else {
        if |s| > 1 {
          CollapseBlankLinesFirst(s[1..]);
          assert s[0] == ' ' ==> s[1] != ' ';
        }
        NoDoubleSpaceCons(s[0], t);
      }
    }
  }

  lemma NoDoubleSpaceCons(c: char, t: string)
    requires NoDoubleSpace(t)
    requires c == ' ' && t != [] ==> t[0] != ' '
    ensures NoDoubleSpace([c] + t)
  {
    var r := [c] + t;
    forall i | 0 <= i < |r| - 1 ensures !(r[i] == ' ' && r[i + 1] == ' ') {
      if i > 0 {
        assert r[i] == t[i - 1] && r[i + 1] == t[i];
      }
    }
  }

  // ─── what preprocessText keeps ───────────────────────────────────────────

  lemma {:induction false} ReplaceCrLfKeepsNonSpace(s: string)
    ensures NonSpace(ReplaceCrLf(s)) == NonSpace(s)
    decreases |s|
  {
    if |s| >= 2 && s[0] == '\r' && s[1] == '\n' {
      var t := ReplaceCrLf(s[2..]);
      ReplaceCrLfKeepsNonSpace(s[2..]);
      NonSpaceSkip(s, 2);
      assert ("\n" + t)[1..] == t;
    } else if s != [] {
      var t := ReplaceCrLf(s[1..]);
      ReplaceCrLfKeepsNonSpace(s[1..]);
      assert ([s[0]] + t)[1..] == t;
    }
  }

  lemma {:induction false} ReplaceCrKeepsNonSpace(s: string)
    ensures NonSpace(ReplaceCr(s)) == NonSpace(s)
    decreases |s|
  {
    if s != [] {
      ReplaceCrKeepsNonSpace(s[1..]);
      assert ReplaceCr(s)[1..] == ReplaceCr(s[1..]);
    }
  }

  /** Removing the zero-width characters commutes with dropping `\s`. */
  lemma {:induction false} RemoveInvisibleNonSpace(s: string)
    ensures NonSpace(RemoveInvisible(s)) == RemoveInvisible(NonSpace(s))
    decreases |s|
  {
    if s != [] {
      var head := if IsInvisible(s[0]) then [] else [s[0]];
      var kept := if IsRegexSpace(s[0]) then [] else [s[0]];
      RemoveInvisibleNonSpace(s[1..]);
      NonSpaceConcat(head, RemoveInvisible(s[1..]));
      RemoveInvisibleConcat(kept, NonSpace(s[1..]));
      assert NonSpace(head) == RemoveInvisible(kept) by {
        assert [s[0]][1..] == [];
      }
    }
  }

  lemma {:induction false} CollapseSpacesAndTabsKeepsNonSpace(s: string)
    ensures NonSpace(CollapseSpacesAndTabs(s)) == NonSpace(s)
    decreases |s|
  {
    if s != [] {
      if IsSpaceOrTab(s[0]) {
        var n := LeadingSpacesOrTabs(s);
        var t := CollapseSpacesAndTabs(s[n..]);
        CollapseSpacesAndTabsKeepsNonSpace(s[n..]);
        assert (" " + t)[1..] == t;
        NonSpaceSkip(s, n);
      } else {
        var t := CollapseSpacesAndTabs(s[1..]);
        CollapseSpacesAndTabsKeepsNonSpace(s[1..]);
        assert ([s[0]] + t)[1..] == t;
      }
    }
  }

  /** A blank-line match consists of `\s` characters only. */
  lemma BlankRunIsSpace(s: string)
    requires s != []
    ensures BlankRunEnd(s) > 1 ==> forall i :: 0 <= i < BlankRunEnd(s) ==> IsRegexSpace(s[i])
  {
    var n := LeadingRegexSpaces(s);
    if BlankRunEnd(s) > 1 {
      var e := AfterLastNewline(s[..n]);
      assert BlankRunEnd(s) == e && e <= n;
      forall i | 0 <= i < e ensures IsRegexSpace(s[i]) {
        assert i < n;
      }
    }
  }

  lemma {:induction false} CollapseBlankLinesKeepsNonSpace(s: string)
    ensures NonSpace(CollapseBlankLines(s)) == NonSpace(s)
    decreases |s|
  {
    if s != [] {
      var e := BlankRunEnd(s);
      var t := CollapseBlankLines(s[e..]);
      CollapseBlankLinesKeepsNonSpace(s[e..]);
      if e > 1 {
        BlankRunIsSpace(s);
        NonSpaceSkip(s, e);
        assert ("\n\n" + t)[2..] == t;
        assert NonSpace("\n\n" + t) == NonSpace(t) by {
          assert ("\n\n" + t)[1..] == "\n" + t;
          assert ("\n" + t)[1..] == t;
        }
      } else {
        assert ([s[0]] + t)[1..] == t;
      }
    }
  }

  /** preprocessText changes only `\s` characters and zero-width ones: the text's
      other characters all survive, in order. */
  lemma PreprocessTextKeepsNonSpace(text: string)
    ensures NonSpace(PreprocessText(Some(text))) == RemoveInvisible(NonSpace(text))
  {
    var s0 := ReplaceCrLf(text);
    var s1 := ReplaceCr(s0);
    var s2 := RemoveInvisible(s1);
    var s3 := CollapseSpacesAndTabs(s2);
    ReplaceCrLfKeepsNonSpace(text);
    ReplaceCrKeepsNonSpace(s0);
    RemoveInvisibleNonSpace(s1);
    CollapseSpacesAndTabsKeepsNonSpace(s2);
    CollapseBlankLinesKeepsNonSpace(s3);
  }

  lemma {:induction false} ReplaceCrLfKeeps(s: string)
    requires '\r' !in s
    ensures ReplaceCrLf(s) == s
    decreases |s|
  {
    if s != [] {
      assert '\r' !in s[1..];
      ReplaceCrLfKeeps(s[1..]);
    }
  }

  lemma {:induction false} RemoveInvisibleKeeps(s: string)
    requires forall i :: 0 <= i < |s| ==> !IsInvisible(s[i])
    ensures RemoveInvisible(s) == s
    decreases |s|
  {
    if s != [] {
      RemoveInvisibleKeeps(s[1..]);
    }
  }

  lemma {:induction false} CollapseBlankLinesKeeps(s: string)
    requires '\n' !in s
    ensures CollapseBlankLines(s) == s
    decreases |s|
  {
    if s != [] {
      assert BlankRunEnd(s) == 1;
      assert '\n' !in s[1..];
      CollapseBlankLinesKeeps(s[1..]);
    }
  }

  /** A single line already free of carriage returns, tabs, zero-width characters
      and double spaces comes through preprocessText unchanged. */
  lemma PreprocessTextKeepsCleanLine(text: string)
    requires forall i :: 0 <= i < |text| ==> text[i] !in "\r\n\t" && !IsInvisible(text[i])
    requires NoDoubleSpace(text)
    ensures PreprocessText(Some(text)) == text
  {
    assert '\r' !in text && '\t' !in text && '\n' !in text by {
      forall i | 0 <= i < |text| ensures text[i] != '\r' && text[i] != '\t' && text[i] != '\n' {
        assert text[i] !in "\r\n\t";
      }
    }
    ReplaceCrLfKeeps(text);
    assert ReplaceCr(text) == text;
    RemoveInvisibleKeeps(text);
    CollapseSpacesAndTabsKeeps(text);
    CollapseBlankLinesKeeps(text);
  }

  /** preprocessText: null becomes the empty string; otherwise line breaks are
      normalised to '\n', zero-width characters are removed, runs of spaces and tabs
      become one space and runs of blank lines are shortened. */
  function PreprocessText(text: Option<string>): (r: string)
    ensures text.None? ==> r == ""
    ensures '\r' !in r
    ensures '\t' !in r
    ensures forall c :: c in r ==> !IsInvisible(c)
    ensures NoDoubleSpace(r)
  {
    if text.None? then ""
    else
      var s1 := ReplaceCr(ReplaceCrLf(text.value));
      var s2 := RemoveInvisible(s1);
      var s3 := CollapseSpacesAndTabs(s2);
      assert '\r' !in s1;
      assert '\r' !in s3 && '\t' !in s3;
      CollapseBlankLinesChars(s3);
      CollapseBlankLinesNoDoubleSpace(s3);
      CollapseBlankLines(s3)
  }

  // ─── tryExtractField ─────────────────────────────────────────────────────

  /** The flags tryExtractField compiles with. */
  const FieldFlags: set<Flag> := {CaseInsensitive, DotAll, Multiline}

  /** text.replaceAll("\\s+", " ").trim(). */
  function Normalize(text: string): (r: string)
    ensures IsTrimmed(r) && SingleSpaced(r)
  {
    TrimKeepsSingleSpaced(CollapseWhitespace(text));
    Trim(CollapseWhitespace(text))
  }

  /** group(1).trim(), commas removed, whitespace collapsed, trimmed again. */
  function CleanCapture(g: string): (r: string)
    ensures IsTrimmed(r) && SingleSpaced(r)
    ensures ',' !in r
  {
    var v := CollapseWhitespace(RemoveChar(Trim(g), ','));
    TrimKeepsSingleSpaced(v);
    Trim(v)
  }

  /** Normalizing turns each `\s` run between two words into one space, in place:
      the text on either side normalizes on its own. */
  lemma NormalizeRun(a: string, w: string, b: string)
    requires a != [] && !IsTrimSpace(a[|a| - 1])
    requires w != [] && forall i :: 0 <= i < |w| ==> IsRegexSpace(w[i])
    requires b != [] && !IsTrimSpace(b[0])
    ensures Normalize(a + w + b) == Normalize(a) + " " + Normalize(b)
  {
    CollapseAroundSpace(a, w, b);
  }

  /** Cleaning a capture turns each `\s` run between two words into one space, in
      place, when the words around it do not end or start with a comma: the text on
      either side cleans on its own. */
  lemma CleanCaptureRun(a: string, w: string, b: string)
    requires a != [] && !IsTrimSpace(a[|a| - 1]) && a[|a| - 1] != ','
    requires w != [] && forall i :: 0 <= i < |w| ==> IsRegexSpace(w[i])
    requires b != [] && !IsTrimSpace(b[0]) && b[0] != ','
    ensures CleanCapture(a + w + b) == CleanCapture(a) + " " + CleanCapture(b)
  {
    CleanStepsRun(a, w, b);
  }

  /** Normalizing only merges and trims `\s` runs: the non-space characters of the text survive, in order. */
  lemma NormalizeKeepsNonSpace(text: string)
    requires NoControlChars(text)
    ensures NonSpace(Normalize(text)) == NonSpace(text)
  {
    var v := CollapseWhitespace(text);
    NoControlCharsFrom(v, text);
    TrimKeepsNonSpace(v);
    CollapseKeepsNonSpace(text);
  }

  /** Cleaning a capture keeps its non-space characters, in order, less every comma. */
  lemma CleanCaptureKeepsNonSpace(g: string)
    requires NoControlChars(g)
    ensures NonSpace(CleanCapture(g)) == RemoveChar(NonSpace(g), ',')
  {
    var t := Trim(g);
    NoControlCharsFrom(t, g);
    TrimKeepsNonSpace(g);
    var u := RemoveChar(t, ',');
    NoControlCharsFrom(u, t);
    NonSpaceRemoveChar(t, ',');
    var v := CollapseWhitespace(u);
    NoControlCharsFrom(v, u);
    CollapseKeepsNonSpace(u);
    TrimKeepsNonSpace(v);
  }

  /** The outcome of matching one candidate text. */
  datatype Attempt = Found(value: string) | NoValue | Threw

  /** find(), groupCount() > 0, group(1) (null throws), cleaning, the blank test. */
  function AttemptCandidate(o: Oracle, p: Pattern, candidate: string): (a: Attempt)
    ensures a.Found? ==> !IsBlank(a.value) && IsTrimmed(a.value) && SingleSpaced(a.value) && ',' !in a.value
    ensures a == Threw <==>
      var m := o.find(p, candidate);
      m.Some? && m.value.GroupCount() > 0 && m.value.groups[0].None?
    ensures a.Found? <==>
      var m := o.find(p, candidate);
      m.Some? && m.value.GroupCount() > 0 && m.value.groups[0].Some?
      && !IsBlank(CleanCapture(m.value.groups[0].value))
    ensures a.Found? ==> a.value == CleanCapture(o.find(p, candidate).value.groups[0].value)
  {
    match o.find(p, candidate)
    case None => NoValue
    case Some(m) =>
      if m.GroupCount() == 0 then NoValue
      else match m.groups[0]
        case None => Threw
        case Some(g) =>
          var v := CleanCapture(g);
          if IsBlank(v) then NoValue else Found(v)
  }

  /** One iteration of the pattern loop: a pattern that does not compile, or whose
      group 1 is null, is abandoned; otherwise the original text and then the
      normalised text are tried. */
  function TryPattern(o: Oracle, regex: string, original: string, normalized: string): (r: Option<string>)
    ensures r.Some? ==> o.compiles(regex)
    ensures r.Some? ==>
      (|| AttemptCandidate(o, Pattern(regex, FieldFlags), original) == Found(r.value)
       || (AttemptCandidate(o, Pattern(regex, FieldFlags), original) == NoValue
           && AttemptCandidate(o, Pattern(regex, FieldFlags), normalized) == Found(r.value)))
    ensures o.compiles(regex) && AttemptCandidate(o, Pattern(regex, FieldFlags), original).Found? ==>
      r == Some(AttemptCandidate(o, Pattern(regex, FieldFlags), original).value)
    ensures
      (&& o.compiles(regex)
       && AttemptCandidate(o, Pattern(regex, FieldFlags), original) == NoValue
       && AttemptCandidate(o, Pattern(regex, FieldFlags), normalized).Found?) ==>
      r == Some(AttemptCandidate(o, Pattern(regex, FieldFlags), normalized).value)
    ensures AttemptCandidate(o, Pattern(regex, FieldFlags), original) == Threw ==> r.None?
  {
    match Compile(o, regex, FieldFlags)
    case None => None
    case Some(p) =>
      match AttemptCandidate(o, p, original)
      case Found(v) => Some(v)
      case Threw => None
      case NoValue =>
        match AttemptCandidate(o, p, normalized)
        case Found(v) => Some(v)
        case _ => None
  }

  /** The first present value of `s`, if any. */
  function FirstSome(s: seq<Option<string>>): Option<string>
    decreases |s|
  {
    if s == [] then None
    else if s[0].Some? then s[0]
    else FirstSome(s[1..])
  }

  /** FirstSome is absent exactly when every entry is absent, and otherwise is the
      first present entry. */
  lemma {:induction false} FirstSomeSpec(s: seq<Option<string>>)
    ensures FirstSome(s).None? <==> forall i :: 0 <= i < |s| ==> s[i].None?
    ensures FirstSome(s).Some? ==>
      exists i :: 0 <= i < |s| && s[i] == FirstSome(s) && forall j :: 0 <= j < i ==> s[j].None?
    decreases |s|
  {
    if s != [] && s[0].None? {
      FirstSomeSpec(s[1..]);
      assert forall i :: 1 <= i < |s| ==> s[i] == s[1..][i - 1];
      var r := FirstSome(s[1..]);
      if r.Some? {
        var i :| 0 <= i < |s[1..]| && s[1..][i] == r && forall j :: 0 <= j < i ==> s[1..][j].None?;
        assert s[i + 1] == r && forall j :: 0 <= j < i + 1 ==> s[j].None?;
      }
    } else if s != [] {
      assert s[0] == FirstSome(s);
    }
  }

  /** The outcome of each pattern of the list, in list order. */
  function PatternResults(o: Oracle, patterns: seq<string>, original: string, normalized: string): (r: seq<Option<string>>)
    ensures |r| == |patterns|
    ensures forall i :: 0 <= i < |patterns| ==> r[i] == TryPattern(o, patterns[i], original, normalized)
  {
    seq(|patterns|, i requires 0 <= i < |patterns| => TryPattern(o, patterns[i], original, normalized))
  }

  /** tryExtractField(original, normalized, fieldDef). */
  function TryExtractField(o: Oracle, original: string, normalized: string, fd: FieldDef): (r: Option<string>)
    ensures r.Some? ==> !IsBlank(r.value) && IsTrimmed(r.value) && SingleSpaced(r.value) && ',' !in r.value
  {
    var rs := PatternResults(o, fd.extractionPatterns, original, normalized);
    var r := FirstSome(rs);
    assert r.Some? ==> !IsBlank(r.value) && IsTrimmed(r.value) && SingleSpaced(r.value) && ',' !in r.value by {
      FirstSomeSpec(rs);
      if r.Some? {
        var i :| 0 <= i < |rs| && rs[i] == r;
        assert TryPattern(o, fd.extractionPatterns[i], original, normalized) == r;
        var p := Pattern(fd.extractionPatterns[i], FieldFlags);
        assert AttemptCandidate(o, p, original) == Found(r.value) || AttemptCandidate(o, p, normalized) == Found(r.value);
      }
    }
    r
  }

  /** The patterns are tried in list order and the first that yields a value
      decides; there is no value exactly when no pattern yields one. */
  lemma TryExtractFieldFirstMatch(o: Oracle, original: string, normalized: string, fd: FieldDef)
    ensures TryExtractField(o, original, normalized, fd).None? <==>
      forall i :: 0 <= i < |fd.extractionPatterns| ==> TryPattern(o, fd.extractionPatterns[i], original, normalized).None?
    ensures TryExtractField(o, original, normalized, fd).Some? ==>
      exists i :: 0 <= i < |fd.extractionPatterns|
        && TryPattern(o, fd.extractionPatterns[i], original, normalized) == TryExtractField(o, original, normalized, fd)
        && forall j :: 0 <= j < i ==> TryPattern(o, fd.extractionPatterns[j], original, normalized).None?
  {
    var ps := fd.extractionPatterns;
    var rs := PatternResults(o, ps, original, normalized);
    FirstSomeSpec(rs);
    assert |rs| == |ps| && forall i :: 0 <= i < |ps| ==> rs[i] == TryPattern(o, ps[i], original, normalized);
    assert TryExtractField(o, original, normalized, fd) == FirstSome(rs);
  }

  /** tryExtractField(text, fieldDef): the normalised text is derived from the text. */
  function TryExtractFieldIn(o: Oracle, text: string, fd: FieldDef): Option<string> {
    TryExtractField(o, text, Normalize(text), fd)
  }

  // ─── parseValue, compilePattern, passesRequiredCheck ─────────────────────

  /** parseValue(raw, type) for the non-null strings the engine passes: blank gives
      null; STRING and DATE keep the text; INTEGER keeps the ASCII digits and parses
      them (null if there are none or the value exceeds the int range); DOUBLE keeps
      digits and dots and parses them. */
  function ParseValue(o: Oracle, raw: string, t: FieldType): (r: Option<Value>)
    ensures IsBlank(raw) ==> r.None?
    ensures !IsBlank(raw) && (t == STRING || t == DATE) ==> r == Some(Str(raw))
    ensures t == INTEGER && r.Some? ==>
      var c := KeepDigits(raw); c != [] && r.value.Int? && r.value.i == DigitsValue(c)
    ensures t == INTEGER && !IsBlank(raw) ==>
      (r.Some? <==> KeepDigits(raw) != [] && DigitsValue(KeepDigits(raw)) <= MaxInt)
    ensures t == DOUBLE && !IsBlank(raw) ==>
      r == (match ParseDouble(o, KeepDigitsAndDots(raw)) case Some(d) => Some(Dbl(d)) case None => None)
  {
    if IsBlank(raw) then None
    else match t
      case STRING => Some(Str(raw))
      case DATE => Some(Str(raw))
      case INTEGER =>
        var cleaned := KeepDigits(raw);
        if cleaned == [] then None
        else (match ParseInt(cleaned) case Some(i) => Some(Int(i)) case None => None)
      case DOUBLE =>
        var cleaned := KeepDigitsAndDots(raw);
        if cleaned == [] then None
        else (match ParseDouble(o, cleaned) case Some(d) => Some(Dbl(d)) case None => None)
  }

  /** compilePattern: null, blank or ill-formed patterns give null. */
  function CompilePattern(o: Oracle, regex: Option<string>): (r: Option<Pattern>)
    ensures r.Some? <==> regex.Some? && !IsBlank(regex.value) && o.compiles(regex.value)
    ensures r.Some? ==> r.value == Pattern(regex.value, {CaseInsensitive, Multiline})
  {
    if regex.None? || IsBlank(regex.value) then None
    else Compile(o, regex.value, {CaseInsensitive, Multiline})
  }

  /** passesRequiredCheck: every required definition's name is a key of the row. */
  function PassesRequiredCheck(row: LinkedMap<Value>, defs: seq<FieldDef>): (r: bool)
    ensures r <==> forall i :: 0 <= i < |defs| && defs[i].isRequired ==> defs[i].fieldName in row.vals
    decreases |defs|
  {
    if defs == [] then true
    else if defs[0].isRequired && defs[0].fieldName !in row.vals then false
    else
      var rest := PassesRequiredCheck(row, defs[1..]);
      assert forall i :: 1 <= i < |defs| ==> defs[i] == defs[1..][i - 1];
      rest
  }

  // ─── city names, header and footer lines ─────────────────────────────────

  /** The mapped city name for a `cityName` capture, when the table is not empty
      and holds its upper-cased, trimmed form. */
  function CityLookup(fieldName: string, extracted: string, cityMappings: map<string, string>): (r: Option<string>)
    ensures r.Some? <==> fieldName == "cityName" && |cityMappings| > 0 && Trim(ToUpper(extracted)) in cityMappings
    ensures r.Some? ==> r.value == cityMappings[Trim(ToUpper(extracted))]
  {
    if fieldName == "cityName" && |cityMappings| > 0 && Trim(ToUpper(extracted)) in cityMappings
    then Some(cityMappings[Trim(ToUpper(extracted))])
    else None
  }

  const HeaderVocabulary: string :=
    ".*\\b(invoice|date|time|serial|s\\.?no|sr\\.?no|description)\\b.*\\b(rate|amount|spots|duration|programme)\\b.*"
  const HeaderStart: string := "^(date|sr\\s*no|time|programme|description|rate|amount|spots|duration).*"
  const FooterPage: string := ".*\\bpage\\s+\\d+\\s+of\\s+\\d+.*"
  const FooterStart: string := "^(this|computer|system|generated|authorized|signatory).*"

  /** isHeaderLine: header vocabulary on both sides, or a short line opening with a
      column title. */
  predicate IsHeaderLine(o: Oracle, text: string) {
    var lower := ToLower(text);
    o.fullMatch(HeaderVocabulary, lower) || (o.fullMatch(HeaderStart, lower) && |text| < 80)
  }

  /** isFooterLine: pagination, or a short line opening with boilerplate words. */
  predicate IsFooterLine(o: Oracle, text: string) {
    var lower := ToLower(text);
    o.fullMatch(FooterPage, lower) || (o.fullMatch(FooterStart, lower) && |text| < 100)
  }

  // ─── field filling, shared by extractRow and flushDataRow ────────────────

  /** The value a definition contributes to a row: its extracted text, parsed, or the
      mapped name when it is a `cityName` found in the mapping table. */
  function ParsedField(o: Oracle, text: string, normalized: string, fd: FieldDef,
                       cityMappings: map<string, string>): Option<Value>
  {
    match TryExtractField(o, text, normalized, fd)
    case None => None
    case Some(extracted) =>
      match ParseValue(o, extracted, fd.fieldType)
      case None => None
      case Some(parsed) =>
        match CityLookup(fd.fieldName, extracted, cityMappings)
        case Some(mapped) => Some(Str(mapped))
        case None => Some(parsed)
  }

  /** A definition contributes exactly when a value is extracted and parses; it
      contributes the mapped name when the city table holds one, else the parsed
      value. */
  lemma ParsedFieldSpec(o: Oracle, text: string, normalized: string, fd: FieldDef, cityMappings: map<string, string>)
    ensures var e := TryExtractField(o, text, normalized, fd);
      && (ParsedField(o, text, normalized, fd, cityMappings).Some? <==>
            e.Some? && ParseValue(o, e.value, fd.fieldType).Some?)
      && (e.Some? && ParseValue(o, e.value, fd.fieldType).Some? ==>
            ParsedField(o, text, normalized, fd, cityMappings).value ==
              match CityLookup(fd.fieldName, e.value, cityMappings)
              case Some(mapped) => Str(mapped)
              case None => ParseValue(o, e.value, fd.fieldType).value)
  {
  }

  /** What each definition contributes, in list order. */
  function Contributions(o: Oracle, text: string, normalized: string, defs: seq<FieldDef>,
                         cityMappings: map<string, string>): (r: seq<Option<Value>>)
    ensures |r| == |defs|
    ensures forall i :: 0 <= i < |defs| ==> r[i] == ParsedField(o, text, normalized, defs[i], cityMappings)
  {
    seq(|defs|, i requires 0 <= i < |defs| => ParsedField(o, text, normalized, defs[i], cityMappings))
  }

  /** The row entries and running score after putting each contribution under its
      definition's name and adding that definition's weight. */
  function FillFold(defs: seq<FieldDef>, contribs: seq<Option<Value>>): (LinkedMap<Value>, Int32)
    requires |contribs| == |defs|
    decreases |defs|
  {
    if defs == [] then (OrderedMap([], map[]), 0)
    else
      var n := |defs| - 1;
      var prev := FillFold(defs[..n], contribs[..n]);
      match contribs[n]
      case None => prev
      case Some(v) => (prev.0.Put(defs[n].fieldName, v), Wrap32(prev.1 + defs[n].score))
  }

  /** The loop over a block's definitions in extractRow and flushDataRow. */
  function FillFields(o: Oracle, text: string, normalized: string, defs: seq<FieldDef>,
                      cityMappings: map<string, string>): (LinkedMap<Value>, Int32)
  {
    FillFold(defs, Contributions(o, text, normalized, defs, cityMappings))
  }

  /** The summed weight of the definitions that contribute. */
  function ContributedWeight(defs: seq<FieldDef>, contribs: seq<Option<Value>>): int
    requires |contribs| == |defs|
    decreases |defs|
  {
    if defs == [] then 0
    else
      var n := |defs| - 1;
      ContributedWeight(defs[..n], contribs[..n]) + (if contribs[n].Some? then defs[n].score else 0)
  }

  /** No later definition of the same name contributes. */
  predicate LastContributorOf(defs: seq<FieldDef>, contribs: seq<Option<Value>>, i: nat)
    requires |contribs| == |defs| && i < |defs|
  {
    forall j :: i < j < |defs| && defs[j].fieldName == defs[i].fieldName ==> contribs[j].None?
  }

  /** A filled row holds exactly the names of the contributing definitions. */
  lemma {:induction false} FillFoldKeys(defs: seq<FieldDef>, contribs: seq<Option<Value>>)
    requires |contribs| == |defs|
    ensures forall k :: k in FillFold(defs, contribs).0.vals <==>
      exists i :: 0 <= i < |defs| && defs[i].fieldName == k && contribs[i].Some?
    decreases |defs|
  {
    if defs != [] {
      var n := |defs| - 1;
      var d, c := defs[..n], contribs[..n];
      FillFoldKeys(d, c);
      var prev := FillFold(d, c).0;
      var now := FillFold(defs, contribs).0;
      assert now.vals.Keys == prev.vals.Keys + (if contribs[n].Some? then {defs[n].fieldName} else {});
      forall k ensures k in now.vals <==> exists i :: 0 <= i < |defs| && defs[i].fieldName == k && contribs[i].Some? {
        FillFoldKeysStep(defs, contribs, k, k in prev.vals);
      }
    }
  }

  /** One step of FillFoldKeys: a witness in the prefix is a witness in the whole,
      and a witness in the whole is in the prefix or is the last definition. */
  lemma FillFoldKeysStep(defs: seq<FieldDef>, contribs: seq<Option<Value>>, k: string, inPrev: bool)
    requires |contribs| == |defs| > 0
    requires var n := |defs| - 1;
      inPrev <==> exists i :: 0 <= i < n && defs[..n][i].fieldName == k && contribs[..n][i].Some?
    ensures var n := |defs| - 1;
      (inPrev || (contribs[n].Some? && defs[n].fieldName == k)) <==>
      exists i :: 0 <= i < |defs| && defs[i].fieldName == k && contribs[i].Some?
  {
    var n := |defs| - 1;
    var d, c := defs[..n], contribs[..n];
    if inPrev {
      var i :| 0 <= i < n && d[i].fieldName == k && c[i].Some?;
      assert defs[i] == d[i] && contribs[i] == c[i];
    }
    if exists i :: 0 <= i < |defs| && defs[i].fieldName == k && contribs[i].Some? {
      var i :| 0 <= i < |defs| && defs[i].fieldName == k && contribs[i].Some?;
      if i < n {
        assert d[i] == defs[i] && c[i] == contribs[i];
      }
    }
  }

  /** Each name holds the contribution of the last contributing definition of that
      name. */
  lemma {:induction false} FillFoldValues(defs: seq<FieldDef>, contribs: seq<Option<Value>>)
    requires |contribs| == |defs|
    ensures forall i :: 0 <= i < |defs| && contribs[i].Some? && LastContributorOf(defs, contribs, i) ==>
      && defs[i].fieldName in FillFold(defs, contribs).0.vals
      && FillFold(defs, contribs).0.vals[defs[i].fieldName] == contribs[i].value
    decreases |defs|
  {
    if defs != [] {
      var n := |defs| - 1;
      var d, c := defs[..n], contribs[..n];
      FillFoldValues(d, c);
      var prev := FillFold(d, c).0;
      var now := FillFold(defs, contribs).0;
      forall i | 0 <= i < |defs| && contribs[i].Some? && LastContributorOf(defs, contribs, i)
        ensures defs[i].fieldName in now.vals && now.vals[defs[i].fieldName] == contribs[i].value
      {
        if i < n {
          assert d[i] == defs[i] && c[i] == contribs[i];
          assert LastContributorOf(d, c, i) by {
            forall j | i < j < n && d[j].fieldName == d[i].fieldName ensures c[j].None? {
              assert d[j] == defs[j] && c[j] == contribs[j];
            }
          }
        }
      }
    }
  }

  /** The score after the last definition, in terms of the score before it. */
  lemma {:induction false} FillFoldScoreStep(defs: seq<FieldDef>, contribs: seq<Option<Value>>)
    requires |contribs| == |defs| > 0
    ensures var n := |defs| - 1;
      var prev := FillFold(defs[..n], contribs[..n]).1;
      FillFold(defs, contribs).1 == (if contribs[n].Some? then Wrap32(prev + defs[n].score) else prev)
  {
  }

  /** A filled row's score is the summed weight of the contributing definitions,
      wrapped to 32 bits. */
  lemma {:induction false} FillFoldScore(defs: seq<FieldDef>, contribs: seq<Option<Value>>)
    requires |contribs| == |defs|
    ensures FillFold(defs, contribs).1 == Wrap32(ContributedWeight(defs, contribs))
    decreases |defs|
  {
    if defs != [] {
      var n := |defs| - 1;
      var d, c := defs[..n], contribs[..n];
      FillFoldScore(d, c);
      FillFoldScoreStep(defs, contribs);
      if contribs[n].Some? {
        Wrap32AddTo(FillFold(d, c).1, ContributedWeight(d, c), defs[n].score);
      }
    }
  }

  /** Whether a definition contributes does not depend on the city-mapping table. */
  lemma ContributionIgnoresTable(o: Oracle, text: string, normalized: string, fd: FieldDef,
                                 m1: map<string, string>, m2: map<string, string>)
    ensures ParsedField(o, text, normalized, fd, m1).Some? == ParsedField(o, text, normalized, fd, m2).Some?
  {
  }

  /** The state of a field-filling loop after `i` definitions: the fold of their
      contributions. */
  predicate FilledUpTo(fields: LinkedMap<Value>, score: Int32, defs: seq<FieldDef>, contribs: seq<Option<Value>>, i: nat) {
    |contribs| == |defs| && i <= |defs| && (fields, score) == FillFold(defs[..i], contribs[..i])
  }

  lemma SkipField(fields: LinkedMap<Value>, score: Int32, defs: seq<FieldDef>, contribs: seq<Option<Value>>, i: nat)
    requires FilledUpTo(fields, score, defs, contribs, i) && i < |defs| && contribs[i].None?
    ensures FilledUpTo(fields, score, defs, contribs, i + 1)
  {
    assert defs[..i + 1][..i] == defs[..i] && contribs[..i + 1][..i] == contribs[..i];
  }

  lemma PutField(fields: LinkedMap<Value>, score: Int32, defs: seq<FieldDef>, contribs: seq<Option<Value>>, i: nat, v: Value)
    requires FilledUpTo(fields, score, defs, contribs, i) && i < |defs| && contribs[i] == Some(v)
    ensures FilledUpTo(fields.Put(defs[i].fieldName, v), Wrap32(score + defs[i].score), defs, contribs, i + 1)
  {
    assert defs[..i + 1][..i] == defs[..i] && contribs[..i + 1][..i] == contribs[..i];
  }

  /** Puts each present contribution under its definition's name, in order, and
      sums the weights of those definitions with Java `int` addition. */
  method PutContributions(row: ExtractedRow, defs: seq<FieldDef>, contribs: seq<Option<Value>>)
    returns (totalScore: Int32)
    requires |contribs| == |defs|
    requires row.fields == OrderedMap([], map[])
    modifies row
    ensures (row.fields, totalScore) == FillFold(defs, contribs)
    ensures row.score == old(row.score)
  {
    totalScore := 0;
    for i := 0 to |defs|
      invariant FilledUpTo(row.fields, totalScore, defs, contribs, i)
      invariant row.score == old(row.score)
    {
      if contribs[i].Some? {
        PutField(row.fields, totalScore, defs, contribs, i, contribs[i].value);
        row.Put(defs[i].fieldName, contribs[i].value);
        totalScore := Wrap32(totalScore + defs[i].score);
      } else {
        SkipField(row.fields, totalScore, defs, contribs, i);
      }
    }
    assert defs[..|defs|] == defs && contribs[..|contribs|] == contribs;
  }

  // ─── the FCT rule ────────────────────────────────────────────────────────

  /** The `fct` entry to add, if any: only when the row has none, has numeric `spots`
      and `duration` (anything else raises an exception that is swallowed) and both
      int values are positive; the product wraps like Java int multiplication. */
  function FctValue(fields: LinkedMap<Value>): (r: Option<Value>)
    ensures r.Some? <==>
      && "fct" !in fields.vals && "spots" in fields.vals && "duration" in fields.vals
      && fields.vals["spots"].IsNumber() && fields.vals["duration"].IsNumber()
      && fields.vals["spots"].IntValue() > 0 && fields.vals["duration"].IntValue() > 0
    ensures r.Some? ==>
      r.value == Int(Wrap32(fields.vals["spots"].IntValue() * fields.vals["duration"].IntValue()))
    ensures r.Some? && fields.vals["spots"].IntValue() * fields.vals["duration"].IntValue() <= MaxInt ==>
      r.value == Int(fields.vals["spots"].IntValue() * fields.vals["duration"].IntValue())
  {
    if "fct" in fields.vals || "spots" !in fields.vals || "duration" !in fields.vals then None
    else
      var spots := fields.vals["spots"];
      var duration := fields.vals["duration"];
      if !spots.IsNumber() || !duration.IsNumber() then None
      else if spots.IntValue() > 0 && duration.IntValue() > 0 then Some(Int(Wrap32(spots.IntValue() * duration.IntValue())))
      else None
  }

  /** The row with the derived `fct` entry put, when there is one. */
  function WithFct(fields: LinkedMap<Value>): LinkedMap<Value> {
    match FctValue(fields)
    case Some(v) => fields.Put("fct", v)
    case None => fields
  }
}
