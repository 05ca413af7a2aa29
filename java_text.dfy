/** The parts of java.lang.String, java.lang.Integer and java.util.regex replacement
    that the extraction code relies on, written out over `seq<char>` with Java's own
    definitions of whitespace, trimming and 32-bit `int` arithmetic. */
module JavaText {
  import opened Wrappers

  // ─── Java int ─────────────────────────────────────────────────────────────

  const MinInt: int := -0x8000_0000
  const MaxInt: int := 0x7FFF_FFFF
  const TwoTo32: int := 0x1_0000_0000

  type Int32 = x: int | MinInt <= x <= MaxInt

  /** Java `int` arithmetic: the mathematical value reduced to 32-bit two's
      complement, by adding or removing 2^32 until it is in range. */
  function Wrap32(x: int): (r: Int32)
    ensures MinInt <= x <= MaxInt ==> r == x
    decreases if x < MinInt then MinInt - x else if x > MaxInt then x - MaxInt else 0
  {
    if x < MinInt then Wrap32(x + TwoTo32)
    else if x > MaxInt then Wrap32(x - TwoTo32)
    else x
  }

  /** The wrapped value differs from the exact one by a multiple of 2^32. */
  lemma {:induction false} Wrap32Multiple(x: int) returns (k: int)
    ensures x == Wrap32(x) + k * TwoTo32
    decreases if x < MinInt then MinInt - x else if x > MaxInt then x - MaxInt else 0
  {
    if x < MinInt {
      var j := Wrap32Multiple(x + TwoTo32);
      k := j - 1;
    } else if x > MaxInt {
      var j := Wrap32Multiple(x - TwoTo32);
      k := j + 1;
    } else {
      k := 0;
    }
  }

  /** Two `int`s a multiple of 2^32 apart are equal. */
  lemma SameInt32(a: Int32, b: Int32, m: int)
    requires a - b == m * TwoTo32
    ensures a == b
  {
  }

  /** Adding to an already wrapped value wraps like adding to the exact value,
      so a running `int` sum equals the wrapped exact sum. */
  lemma Wrap32Add(x: int, y: int)
    ensures Wrap32(Wrap32(x) + y) == Wrap32(x + y)
  {
    var a, b, c := Wrap32(x), Wrap32(Wrap32(x) + y), Wrap32(x + y);
    var k1 := Wrap32Multiple(x);
    var k2 := Wrap32Multiple(a + y);
    var k3 := Wrap32Multiple(x + y);
    assert b - c == k3 * TwoTo32 - k1 * TwoTo32 - k2 * TwoTo32;
    assert k3 * TwoTo32 - k1 * TwoTo32 - k2 * TwoTo32 == (k3 - k1 - k2) * TwoTo32;
    SameInt32(b, c, k3 - k1 - k2);
  }

  /** Wrap32Add for a running total already known to be the wrapped sum. */
  lemma Wrap32AddTo(total: int, exact: int, y: int)
    requires total == Wrap32(exact)
    ensures Wrap32(total + y) == Wrap32(exact + y)
  {
    Wrap32Add(exact, y);
  }

  /** Java's `a + b` on two `int`s. */
  function IntAdd(a: Int32, b: Int32): Int32 {
    Wrap32(a + b)
  }

  /** Adding an `int` to a wrapped sum wraps the exact sum. */
  lemma IntAddWrapped(a: Int32, exact: int)
    ensures IntAdd(a, Wrap32(exact)) == Wrap32(a + exact)
  {
    Wrap32Add(exact, a);
    assert a + Wrap32(exact) == Wrap32(exact) + a;
    assert a + exact == exact + a;
  }

  // ─── characters ──────────────────────────────────────────────────────────

  /** The characters String.trim() removes: every code point up to U+0020. */
  predicate IsTrimSpace(c: char) {
    c <= ' '
  }

  /** Character.isWhitespace, which String.isBlank() uses. */
  predicate IsJavaWhitespace(c: char) {
    || ('\t' <= c <= '\r')
    || ('\U{1C}' <= c <= ' ')
    || c == '\U{1680}'
    || ('\U{2000}' <= c <= '\U{2006}')
    || ('\U{2008}' <= c <= '\U{200A}')
    || c == '\U{2028}' || c == '\U{2029}' || c == '\U{205F}' || c == '\U{3000}'
  }

  /** The regular-expression class `\s` without UNICODE_CHARACTER_CLASS: [ \t\n\x0B\f\r]. */
  predicate IsRegexSpace(c: char) {
    c == ' ' || c == '\t' || c == '\n' || c == '\U{0B}' || c == '\U{0C}' || c == '\r'
  }

  predicate IsAsciiDigit(c: char) {
    '0' <= c <= '9'
  }

  /** String.toUpperCase restricted to ASCII letters. */
  function ToUpperChar(c: char): (r: char)
    ensures 'a' <= c <= 'z' ==> 'A' <= r <= 'Z'
    ensures !('a' <= c <= 'z') ==> r == c
  {
    if 'a' <= c <= 'z' then (c as int - 32) as char else c
  }

  function ToUpper(s: string): (r: string)
    ensures |r| == |s|
    ensures forall i :: 0 <= i < |s| ==> r[i] == ToUpperChar(s[i])
  {
    if s == [] then [] else [ToUpperChar(s[0])] + ToUpper(s[1..])
  }

  /** String.toLowerCase restricted to ASCII letters. */
  function ToLowerChar(c: char): (r: char)
    ensures 'A' <= c <= 'Z' ==> 'a' <= r <= 'z'
    ensures !('A' <= c <= 'Z') ==> r == c
  {
    if 'A' <= c <= 'Z' then (c as int + 32) as char else c
  }

  function ToLower(s: string): (r: string)
    ensures |r| == |s|
    ensures forall i :: 0 <= i < |s| ==> r[i] == ToLowerChar(s[i])
  {
    if s == [] then [] else [ToLowerChar(s[0])] + ToLower(s[1..])
  }

  // ─── blank, trim ─────────────────────────────────────────────────────────

  /** String.isBlank(): empty or only Character.isWhitespace code points. */
  predicate IsBlank(s: string) {
    forall i :: 0 <= i < |s| ==> IsJavaWhitespace(s[i])
  }

  /** What String.trim() returns: empty, or no trim-space at either end. */
  predicate IsTrimmed(s: string) {
    s == [] || (!IsTrimSpace(s[0]) && !IsTrimSpace(s[|s| - 1]))
  }

  function TrimStart(s: string): (r: string)
    ensures |r| <= |s| && r == s[|s| - |r|..]
    ensures r == [] || !IsTrimSpace(r[0])
    ensures forall i :: 0 <= i < |s| - |r| ==> IsTrimSpace(s[i])
    decreases |s|
  {
    if s != [] && IsTrimSpace(s[0]) then
      var r := TrimStart(s[1..]);
      assert s[1..][|s| - 1 - |r|..] == s[|s| - |r|..];
      assert forall i :: 1 <= i < |s| - |r| ==> s[i] == s[1..][i - 1];
      r
    else s
  }

  function TrimEnd(s: string): (r: string)
    ensures |r| <= |s| && r == s[..|r|]
    ensures r == [] || !IsTrimSpace(r[|r| - 1])
    ensures forall i :: |r| <= i < |s| ==> IsTrimSpace(s[i])
    decreases |s|
  {
    if s != [] && IsTrimSpace(s[|s| - 1]) then
      var r := TrimEnd(s[..|s| - 1]);
      assert s[..|s| - 1][..|r|] == s[..|r|];
      assert forall i :: |r| <= i < |s| - 1 ==> s[i] == s[..|s| - 1][i];
      r
    else s
  }

  /** String.trim(). */
  function Trim(s: string): (r: string)
    ensures IsTrimmed(r)
    ensures IsTrimmed(s) ==> r == s
    ensures r == [] <==> forall i :: 0 <= i < |s| ==> IsTrimSpace(s[i])
    ensures forall c :: c in r ==> c in s
  {
    var t := TrimStart(s);
    var r := TrimEnd(t);
    assert r == [] ==> t == [];
    assert forall c :: c in r ==> c in s by {
      forall c | c in r ensures c in s {
        var k :| 0 <= k < |r| && r[k] == c;
        assert t[k] == c;
        assert s[|s| - |t| + k] == c;
      }
    }
    r
  }

  /** trim() cuts characters up to U+0020 from both ends and changes nothing else: its
      result is a slice of the input with only such characters around it. */
  lemma TrimCutsOnlyEnds(s: string)
    ensures exists i, j ::
      && 0 <= i <= j <= |s| && Trim(s) == s[i..j]
      && (forall k :: 0 <= k < i ==> IsTrimSpace(s[k]))
      && (forall k :: j <= k < |s| ==> IsTrimSpace(s[k]))
  {
    var t := TrimStart(s);
    var r := TrimEnd(t);
    var i, j := |s| - |t|, |s| - |t| + |r|;
    assert Trim(s) == s[i..j] by {
      assert Trim(s) == r;
    }
    assert forall k :: j <= k < |s| ==> IsTrimSpace(s[k]) by {
      forall k | j <= k < |s| ensures IsTrimSpace(s[k]) {
        assert s[k] == t[k - i];
      }
    }
  }

  lemma TrimIdempotent(s: string)
    ensures Trim(Trim(s)) == Trim(s)
  {
  }

  /** Once a character above U+0020 has been met, whatever follows is kept by TrimStart. */
  lemma {:induction false} TrimStartConcat(x: string, y: string)
    requires TrimStart(x) != []
    ensures TrimStart(x + y) == TrimStart(x) + y
    decreases |x|
  {
    if IsTrimSpace(x[0]) {
      assert (x + y)[0] == x[0] && (x + y)[1..] == x[1..] + y;
      TrimStartConcat(x[1..], y);
    }
  }

  /** Whatever precedes a character above U+0020 is kept by TrimEnd. */
  lemma {:induction false} TrimEndConcat(x: string, y: string)
    requires TrimEnd(y) != []
    ensures TrimEnd(x + y) == x + TrimEnd(y)
    decreases |y|
  {
    var xy := x + y;
    assert xy[|xy| - 1] == y[|y| - 1];
    if IsTrimSpace(y[|y| - 1]) {
      assert xy[..|xy| - 1] == x + y[..|y| - 1];
      TrimEndConcat(x, y[..|y| - 1]);
    }
  }

  /** Trimming a text that ends above U+0020 only cuts its start. */
  lemma TrimStartOnly(a: string)
    requires a != [] && !IsTrimSpace(a[|a| - 1])
    ensures Trim(a) == TrimStart(a)
    ensures Trim(a) != [] && Trim(a)[|Trim(a)| - 1] == a[|a| - 1]
  {
    var sa := TrimStart(a);
    assert sa != [] && sa[|sa| - 1] == a[|a| - 1];
    assert TrimEnd(sa) == sa;
  }

  /** Trimming a text that starts above U+0020 only cuts its end. */
  lemma TrimEndOnly(b: string)
    requires b != [] && !IsTrimSpace(b[0])
    ensures Trim(b) == TrimEnd(b)
    ensures Trim(b) != [] && Trim(b)[0] == b[0]
  {
    assert TrimStart(b) == b;
    var eb := TrimEnd(b);
    assert eb != [] && eb[0] == b[0];
  }

  /** Trimming text whose first part ends and whose last part starts above U+0020
      trims those two parts only, keeping their inner ends and the middle. */
  lemma TrimKeepsInside(a: string, w: string, b: string)
    requires a != [] && !IsTrimSpace(a[|a| - 1])
    requires b != [] && !IsTrimSpace(b[0])
    ensures Trim(a + w + b) == Trim(a) + w + Trim(b)
  {
    TrimStartOnly(a);
    TrimEndOnly(b);
    var sa, eb := TrimStart(a), TrimEnd(b);
    assert TrimStart(a + w + b) == sa + (w + b) by {
      AppendAssoc(a, w, b);
      TrimStartConcat(a, w + b);
    }
    assert TrimEnd(sa + (w + b)) == sa + w + eb by {
      AppendAssoc(sa, w, b);
      TrimEndConcat(sa + w, b);
    }
  }

  /** Trimming text made of two parts around one space, the first ending and the
      second starting above U+0020, trims the outer ends only. */
  lemma TrimAroundSpace(x: string, y: string)
    requires x != [] && !IsTrimSpace(x[|x| - 1])
    requires y != [] && !IsTrimSpace(y[0])
    ensures Trim(x + " " + y) == Trim(x) + " " + Trim(y)
  {
    var tx := TrimStart(x);
    assert tx != [] && tx[|tx| - 1] == x[|x| - 1];
    assert x + " " + y == x + (" " + y);
    TrimStartConcat(x, " " + y);
    assert TrimEnd(y) != [] && TrimEnd(y)[0] == y[0];
    TrimEndConcat(" ", y);
    TrimEndConcat(tx, " " + y);
    assert Trim(x) == tx;
    assert TrimStart(y) == y;
    AppendAssoc(tx, " ", TrimEnd(y));
  }

  // ─── removing characters ─────────────────────────────────────────────────

  /** String.replace(c, "") / replaceAll("<c>", ""). */
  function RemoveChar(s: string, c: char): (r: string)
    ensures c !in r
    ensures forall x :: x in r ==> x in s
    ensures |r| <= |s|
  {
    if s == [] then [] else (if s[0] == c then [] else [s[0]]) + RemoveChar(s[1..], c)
  }

  /** replaceAll("[^0-9]", ""). */
  function KeepDigits(s: string): (r: string)
    ensures forall i :: 0 <= i < |r| ==> IsAsciiDigit(r[i])
    ensures |s| == 1 ==> r == (if IsAsciiDigit(s[0]) then s else [])
    ensures (forall i :: 0 <= i < |s| ==> !IsAsciiDigit(s[i])) ==> r == []
    ensures (exists i :: 0 <= i < |s| && IsAsciiDigit(s[i])) ==> r != []
  {
    if s == [] then []
    else
      var rest := KeepDigits(s[1..]);
      assert (exists i :: 0 <= i < |s| && IsAsciiDigit(s[i])) && !IsAsciiDigit(s[0]) ==>
        exists i :: 0 <= i < |s[1..]| && IsAsciiDigit(s[1..][i]) by {
        if (exists i :: 0 <= i < |s| && IsAsciiDigit(s[i])) && !IsAsciiDigit(s[0]) {
          var i :| 0 <= i < |s| && IsAsciiDigit(s[i]);
          assert s[1..][i - 1] == s[i];
        }
      }
      (if IsAsciiDigit(s[0]) then [s[0]] else []) + rest
  }

  /** The replacement works character by character: the digits kept from a
      concatenation are those kept from each part, so the result is the input's
      digits in their order. */
  lemma {:induction false} KeepDigitsConcat(a: string, b: string)
    ensures KeepDigits(a + b) == KeepDigits(a) + KeepDigits(b)
    decreases |a|
  {
    if a == [] {
      assert a + b == b;
    } else {
      assert (a + b)[1..] == a[1..] + b;
      KeepDigitsConcat(a[1..], b);
    }
  }

  /** replaceAll("[^0-9.]", ""). */
  function KeepDigitsAndDots(s: string): (r: string)
    ensures forall i :: 0 <= i < |r| ==> IsAsciiDigit(r[i]) || r[i] == '.'
    ensures |r| <= |s|
    ensures |s| == 1 ==> r == (if IsAsciiDigit(s[0]) || s[0] == '.' then s else [])
  {
    if s == [] then []
    else (if IsAsciiDigit(s[0]) || s[0] == '.' then [s[0]] else []) + KeepDigitsAndDots(s[1..])
  }

  /** The filter works character by character, so its result is the input's digits
      and dots in their order. */
  lemma {:induction false} KeepDigitsAndDotsConcat(a: string, b: string)
    ensures KeepDigitsAndDots(a + b) == KeepDigitsAndDots(a) + KeepDigitsAndDots(b)
    decreases |a|
  {
    if a == [] {
      assert a + b == b;
    } else {
      assert (a + b)[0] == a[0] && (a + b)[1..] == a[1..] + b;
      KeepDigitsAndDotsConcat(a[1..], b);
      var head := if IsAsciiDigit(a[0]) || a[0] == '.' then [a[0]] else [];
      AppendAssoc(head, KeepDigitsAndDots(a[1..]), KeepDigitsAndDots(b));
    }
  }

  // ─── whitespace runs ─────────────────────────────────────────────────────

  /** No `\s` character other than a plain space, and never two `\s` characters in a row. */
  predicate SingleSpaced(s: string) {
    && (forall i :: 0 <= i < |s| && IsRegexSpace(s[i]) ==> s[i] == ' ')
    && (forall i :: 0 <= i < |s| - 1 ==> !(IsRegexSpace(s[i]) && IsRegexSpace(s[i + 1])))
  }

  function LeadingRegexSpaces(s: string): (n: nat)
    ensures n <= |s|
    ensures forall i :: 0 <= i < n ==> IsRegexSpace(s[i])
    ensures n < |s| ==> !IsRegexSpace(s[n])
    decreases |s|
  {
    if s != [] && IsRegexSpace(s[0]) then 1 + LeadingRegexSpaces(s[1..]) else 0
  }

  /** The characters of `s` outside the class `\s`, in order. */
  function NonSpace(s: string): string
    decreases |s|
  {
    if s == [] then [] else (if IsRegexSpace(s[0]) then [] else [s[0]]) + NonSpace(s[1..])
  }

  lemma {:induction false} NonSpaceConcat(a: string, b: string)
    ensures NonSpace(a + b) == NonSpace(a) + NonSpace(b)
    decreases |a|
  {
    if a == [] {
      assert a + b == b;
    } else {
      assert (a + b)[1..] == a[1..] + b;
      NonSpaceConcat(a[1..], b);
    }
  }

  /** A leading run of `\s` characters contributes nothing. */
  lemma {:induction false} NonSpaceSkip(s: string, n: nat)
    requires n <= |s| && forall i :: 0 <= i < n ==> IsRegexSpace(s[i])
    ensures NonSpace(s) == NonSpace(s[n..])
    decreases n
  {
    if n > 0 {
      assert forall i :: 0 <= i < n - 1 ==> s[1..][i] == s[i + 1];
      NonSpaceSkip(s[1..], n - 1);
      assert s[1..][n - 1..] == s[n..];
    }
  }

  /** No character up to U+0020 other than those of the class `\s`. */
  predicate NoControlChars(s: string) {
    forall k :: 0 <= k < |s| && IsTrimSpace(s[k]) ==> IsRegexSpace(s[k])
  }

  /** A text whose characters other than ' ' all come from a text without control characters has none either. */
  lemma NoControlCharsFrom(a: string, b: string)
    requires NoControlChars(b)
    requires forall c :: c in a && c != ' ' ==> c in b
    ensures NoControlChars(a)
  {
    forall k | 0 <= k < |a| && IsTrimSpace(a[k]) ensures IsRegexSpace(a[k]) {
      if a[k] != ' ' {
        assert a[k] in a;
        var m :| 0 <= m < |b| && b[m] == a[k];
      }
    }
  }

  lemma {:induction false} RemoveCharConcat(a: string, b: string, c: char)
    ensures RemoveChar(a + b, c) == RemoveChar(a, c) + RemoveChar(b, c)
    decreases |a|
  {
    if a == [] {
      assert a + b == b;
    } else {
      var h := if a[0] == c then [] else [a[0]];
      assert (a + b)[0] == a[0] && (a + b)[1..] == a[1..] + b;
      assert RemoveChar(a + b, c) == h + RemoveChar(a[1..] + b, c);
      RemoveCharConcat(a[1..], b, c);
      AppendAssoc(h, RemoveChar(a[1..], c), RemoveChar(b, c));
      assert RemoveChar(a, c) == h + RemoveChar(a[1..], c);
    }
  }

  /** Removing a character that does not occur changes nothing. */
  lemma {:induction false} RemoveCharAbsent(s: string, c: char)
    requires c !in s
    ensures RemoveChar(s, c) == s
    decreases |s|
  {
    if s != [] {
      assert c !in s[1..];
      RemoveCharAbsent(s[1..], c);
    }
  }

  /** Removing a character from three parts, the middle one free of it. */
  lemma RemoveCharAround(a: string, w: string, b: string, c: char)
    requires c !in w
    ensures RemoveChar(a + w + b, c) == RemoveChar(a, c) + w + RemoveChar(b, c)
  {
    RemoveCharConcat(a + w, b, c);
    RemoveCharConcat(a, w, c);
    RemoveCharAbsent(w, c);
  }

  /** Removing a character keeps a first character that is not that character. */
  lemma RemoveCharFirst(s: string, c: char)
    requires s != [] && s[0] != c
    ensures RemoveChar(s, c) != [] && RemoveChar(s, c)[0] == s[0]
  {
  }

  /** Removing a character keeps a last character that is not that character. */
  lemma RemoveCharLast(s: string, c: char)
    requires s != [] && s[|s| - 1] != c
    ensures RemoveChar(s, c) != [] && RemoveChar(s, c)[|RemoveChar(s, c)| - 1] == s[|s| - 1]
  {
    var init, last := s[..|s| - 1], s[|s| - 1];
    InitLast(s);
    RemoveCharConcat(init, [last], c);
    assert RemoveChar([last], c) == [last] by {
      assert [last][1..] == [];
    }
  }

  lemma {:induction false} NonSpaceRemoveChar(s: string, c: char)
    ensures NonSpace(RemoveChar(s, c)) == RemoveChar(NonSpace(s), c)
    decreases |s|
  {
    if s != [] {
      var head := if s[0] == c then [] else [s[0]];
      NonSpaceRemoveChar(s[1..], c);
      NonSpaceConcat(head, RemoveChar(s[1..], c));
      var kept := if IsRegexSpace(s[0]) then [] else [s[0]];
      RemoveCharConcat(kept, NonSpace(s[1..]), c);
    }
  }

  /** The characters TrimStart removes are `\s` characters when the text has no control characters. */
  lemma {:induction false} TrimStartKeepsNonSpace(s: string)
    requires NoControlChars(s)
    ensures NoControlChars(TrimStart(s))
    ensures NonSpace(TrimStart(s)) == NonSpace(s)
    decreases |s|
  {
    if s != [] && IsTrimSpace(s[0]) {
      var tail := s[1..];
      assert NoControlChars(tail) by {
        forall k | 0 <= k < |tail| && IsTrimSpace(tail[k]) ensures IsRegexSpace(tail[k]) {
          assert tail[k] == s[k + 1];
        }
      }
      TrimStartKeepsNonSpace(tail);
      assert IsRegexSpace(s[0]);
    }
  }

  /** The characters TrimEnd removes are `\s` characters when the text has no control characters. */
  lemma {:induction false} TrimEndKeepsNonSpace(s: string)
    requires NoControlChars(s)
    ensures NonSpace(TrimEnd(s)) == NonSpace(s)
    decreases |s|
  {
    if s != [] && IsTrimSpace(s[|s| - 1]) {
      var init, last := s[..|s| - 1], s[|s| - 1];
      assert NoControlChars(init) by {
        forall k | 0 <= k < |init| && IsTrimSpace(init[k]) ensures IsRegexSpace(init[k]) {
          assert init[k] == s[k];
        }
      }
      TrimEndKeepsNonSpace(init);
      assert NonSpace(s) == NonSpace(init) by {
        assert IsRegexSpace(last);
        assert NonSpace([last]) == [];
        NonSpaceConcat(init, [last]);
        assert init + [last] == s;
      }
    }
  }

  /** Trimming cuts only `\s` characters from a text without control characters, so
      its non-space characters stay as they are. */
  lemma TrimKeepsNonSpace(s: string)
    requires NoControlChars(s)
    ensures NonSpace(Trim(s)) == NonSpace(s)
  {
    TrimStartKeepsNonSpace(s);
    TrimEndKeepsNonSpace(TrimStart(s));
    assert Trim(s) == TrimEnd(TrimStart(s));
  }

  /** replaceAll("\\s+", " "): every maximal run of `\s` characters becomes one space. */
  function CollapseWhitespace(s: string): (r: string)
    ensures SingleSpaced(r)
    ensures s != [] && !IsRegexSpace(s[0]) ==> r != [] && r[0] == s[0]
    ensures forall c :: c in r && c != ' ' ==> c in s
    decreases |s|
  {
    if s == [] then []
    else if IsRegexSpace(s[0]) then
      var n := LeadingRegexSpaces(s);
      var t := CollapseWhitespace(s[n..]);
      assert forall c :: c in t && c != ' ' ==> c in s by {
        forall c | c in t && c != ' ' ensures c in s {
          var k :| 0 <= k < |s[n..]| && s[n..][k] == c;
          assert s[n + k] == c;
        }
      }
      " " + t
    else
      var t := CollapseWhitespace(s[1..]);
      assert forall c :: c in t && c != ' ' ==> c in s by {
        forall c | c in t && c != ' ' ensures c in s {
          var k :| 0 <= k < |s[1..]| && s[1..][k] == c;
          assert s[1 + k] == c;
        }
      }
      [s[0]] + t
  }

  /** Collapsing keeps the non-space characters in order. */
  lemma {:induction false} CollapseKeepsNonSpace(s: string)
    ensures NonSpace(CollapseWhitespace(s)) == NonSpace(s)
    decreases |s|
  {
    if s != [] {
      if IsRegexSpace(s[0]) {
        var n := LeadingRegexSpaces(s);
        var t := CollapseWhitespace(s[n..]);
        CollapseKeepsNonSpace(s[n..]);
        assert CollapseWhitespace(s) == " " + t;
        assert (" " + t)[1..] == t;
        NonSpaceSkip(s, n);
      } else {
        var t := CollapseWhitespace(s[1..]);
        CollapseKeepsNonSpace(s[1..]);
        assert CollapseWhitespace(s) == [s[0]] + t;
        assert ([s[0]] + t)[1..] == t;
      }
    }
  }

  /** The collapsed text starts or ends with a space exactly when the input starts or
      ends with a `\s` character. */
  lemma {:induction false} CollapseKeepsEdges(s: string)
    ensures var r := CollapseWhitespace(s);
      && ((r != [] && r[0] == ' ') <==> (s != [] && IsRegexSpace(s[0])))
      && ((r != [] && r[|r| - 1] == ' ') <==> (s != [] && IsRegexSpace(s[|s| - 1])))
    decreases |s|
  {
    if s != [] {
      var n := if IsRegexSpace(s[0]) then LeadingRegexSpaces(s) else 1;
      var t := CollapseWhitespace(s[n..]);
      CollapseKeepsEdges(s[n..]);
      var r := if IsRegexSpace(s[0]) then " " + t else [s[0]] + t;
      assert CollapseWhitespace(s) == r;
      assert t != [] ==> r[|r| - 1] == t[|t| - 1];
      assert s[n..] != [] ==> s[n..][|s[n..]| - 1] == s[|s| - 1];
    }
  }

  /** Cutting a text where no run of `\s` characters is split lets each part collapse
      on its own. */
  lemma {:induction false} CollapseConcat(a: string, b: string)
    requires a == [] || b == [] || !IsRegexSpace(a[|a| - 1]) || !IsRegexSpace(b[0])
    ensures CollapseWhitespace(a + b) == CollapseWhitespace(a) + CollapseWhitespace(b)
    decreases |a|
  {
    if a == [] {
      assert a + b == b;
    } else if b == [] {
      assert a + b == a;
    } else if !IsRegexSpace(a[0]) {
      var t := a[1..];
      assert (a + b)[0] == a[0] && (a + b)[1..] == t + b;
      CollapseConcat(t, b);
      AppendAssoc([a[0]], CollapseWhitespace(t), CollapseWhitespace(b));
    } else {
      var m := LeadingRegexSpaces(a);
      var n := LeadingRegexSpaces(a + b);
      assert forall i :: 0 <= i < |a| ==> (a + b)[i] == a[i];
      if m < |a| {
        assert n == m by {
          assert (a + b)[m] == a[m];
          assert forall i :: 0 <= i < m ==> IsRegexSpace((a + b)[i]);
        }
        assert (a + b)[m..] == a[m..] + b;
        CollapseConcat(a[m..], b);
        AppendAssoc(" ", CollapseWhitespace(a[m..]), CollapseWhitespace(b));
      } else {
        assert (a + b)[|a|] == b[0];
        assert n == |a| by {
          assert forall i :: 0 <= i < |a| ==> IsRegexSpace((a + b)[i]);
        }
        assert (a + b)[n..] == b;
        assert a[m..] == [];
      }
    }
  }

  /** A non-empty run of `\s` characters becomes a single space. */
  lemma CollapseRunIsOneSpace(w: string)
    requires w != [] && forall i :: 0 <= i < |w| ==> IsRegexSpace(w[i])
    ensures CollapseWhitespace(w) == " "
  {
    var n := LeadingRegexSpaces(w);
    assert n == |w|;
    assert w[n..] == [];
  }

  /** A text that is already single-spaced comes back unchanged; in particular a
      text without any `\s` character does, and collapsing twice is collapsing once. */
  lemma {:induction false} CollapseSingleSpaced(s: string)
    requires SingleSpaced(s)
    ensures CollapseWhitespace(s) == s
    decreases |s|
  {
    if s != [] {
      SingleSpacedSlice(s, 1, |s|);
      CollapseSingleSpaced(s[1..]);
      if IsRegexSpace(s[0]) {
        assert LeadingRegexSpaces(s) == 1 by {
          assert |s| > 1 ==> !IsRegexSpace(s[1]);
        }
      }
    }
  }

  /** Each maximal run of `\s` characters becomes exactly one space, in place: the
      text on either side of a run collapses on its own. */
  lemma CollapseRun(a: string, w: string, b: string)
    requires a == [] || !IsRegexSpace(a[|a| - 1])
    requires w != [] && forall i :: 0 <= i < |w| ==> IsRegexSpace(w[i])
    requires b == [] || !IsRegexSpace(b[0])
    ensures CollapseWhitespace(a + w + b) == CollapseWhitespace(a) + " " + CollapseWhitespace(b)
  {
    CollapseConcat(a + w, b);
    CollapseConcat(a, w);
    CollapseRunIsOneSpace(w);
  }

  /** A text ending outside `\s` keeps its last character when collapsed. */
  lemma CollapseLast(s: string)
    requires s != [] && !IsRegexSpace(s[|s| - 1])
    ensures CollapseWhitespace(s) != [] && CollapseWhitespace(s)[|CollapseWhitespace(s)| - 1] == s[|s| - 1]
  {
    var init, last := s[..|s| - 1], s[|s| - 1];
    InitLast(s);
    CollapseConcat(init, [last]);
    assert CollapseWhitespace([last]) == [last] by {
      assert [last][1..] == [];
    }
  }

  /** Collapsing then trimming text with a `\s` run between two words. */
  lemma CollapseAroundSpace(a: string, w: string, b: string)
    requires a != [] && !IsTrimSpace(a[|a| - 1])
    requires w != [] && forall i :: 0 <= i < |w| ==> IsRegexSpace(w[i])
    requires b != [] && !IsTrimSpace(b[0])
    ensures Trim(CollapseWhitespace(a + w + b)) == Trim(CollapseWhitespace(a)) + " " + Trim(CollapseWhitespace(b))
  {
    CollapseRun(a, w, b);
    CollapseLast(a);
    TrimAroundSpace(CollapseWhitespace(a), CollapseWhitespace(b));
  }

  /** The steps of cleaning a capture (GenericFields.CleanCapture) on text with a `\s` run between two words. */
  lemma CleanStepsRun(a: string, w: string, b: string)
    requires a != [] && !IsTrimSpace(a[|a| - 1]) && a[|a| - 1] != ','
    requires w != [] && forall i :: 0 <= i < |w| ==> IsRegexSpace(w[i])
    requires b != [] && !IsTrimSpace(b[0]) && b[0] != ','
    ensures var ra, rb := RemoveChar(Trim(a), ','), RemoveChar(Trim(b), ',');
      Trim(CollapseWhitespace(RemoveChar(Trim(a + w + b), ',')))
        == Trim(CollapseWhitespace(ra)) + " " + Trim(CollapseWhitespace(rb))
  {
    TrimThenRemoveRun(a, w, b);
    TrimThenRemoveLast(a);
    TrimThenRemoveFirst(b);
    CollapseAroundSpace(RemoveChar(Trim(a), ','), w, RemoveChar(Trim(b), ','));
  }

  /** The first two steps of cleaning a capture keep a `\s` run between two words. */
  lemma TrimThenRemoveRun(a: string, w: string, b: string)
    requires a != [] && !IsTrimSpace(a[|a| - 1])
    requires w != [] && forall i :: 0 <= i < |w| ==> IsRegexSpace(w[i])
    requires b != [] && !IsTrimSpace(b[0])
    ensures RemoveChar(Trim(a + w + b), ',') == RemoveChar(Trim(a), ',') + w + RemoveChar(Trim(b), ',')
  {
    TrimKeepsInside(a, w, b);
    RemoveCommaAroundRun(Trim(a), w, Trim(b));
  }

  lemma RemoveCommaAroundRun(x: string, w: string, y: string)
    requires forall i :: 0 <= i < |w| ==> IsRegexSpace(w[i])
    ensures RemoveChar(x + w + y, ',') == RemoveChar(x, ',') + w + RemoveChar(y, ',')
  {
    assert ',' !in w;
    RemoveCharAround(x, w, y, ',');
  }

  /** The first two steps of cleaning a capture keep a last character that is neither
      trimmed nor a comma. */
  lemma TrimThenRemoveLast(a: string)
    requires a != [] && !IsTrimSpace(a[|a| - 1]) && a[|a| - 1] != ','
    ensures var ra := RemoveChar(Trim(a), ','); ra != [] && ra[|ra| - 1] == a[|a| - 1]
  {
    TrimStartOnly(a);
    RemoveCharLast(Trim(a), ',');
  }

  /** The first two steps of cleaning a capture keep a first character that is neither
      trimmed nor a comma. */
  lemma TrimThenRemoveFirst(b: string)
    requires b != [] && !IsTrimSpace(b[0]) && b[0] != ','
    ensures var rb := RemoveChar(Trim(b), ','); rb != [] && rb[0] == b[0]
  {
    TrimEndOnly(b);
    RemoveCharFirst(Trim(b), ',');
  }

  lemma SingleSpacedSlice(s: string, a: nat, b: nat)
    requires SingleSpaced(s) && a <= b <= |s|
    ensures SingleSpaced(s[a..b])
  {
    var t := s[a..b];
    forall i | 0 <= i < |t| - 1 ensures !(IsRegexSpace(t[i]) && IsRegexSpace(t[i + 1])) {
      assert t[i] == s[a + i] && t[i + 1] == s[a + i + 1];
    }
  }

  lemma TrimKeepsSingleSpaced(s: string)
    requires SingleSpaced(s)
    ensures SingleSpaced(Trim(s))
  {
    TrimStartKeepsSingleSpaced(s);
    TrimEndKeepsSingleSpaced(TrimStart(s));
    assert Trim(s) == TrimEnd(TrimStart(s));
  }

  lemma {:induction false} TrimStartKeepsSingleSpaced(s: string)
    requires SingleSpaced(s)
    ensures SingleSpaced(TrimStart(s))
  {
    if s != [] && IsTrimSpace(s[0]) {
      SingleSpacedSlice(s, 1, |s|);
      assert s[1..|s|] == s[1..];
      TrimStartKeepsSingleSpaced(s[1..]);
    }
  }

  lemma TrimEndKeepsSingleSpaced(s: string)
    requires SingleSpaced(s)
    ensures SingleSpaced(TrimEnd(s))
  {
    var u := TrimEnd(s);
    assert forall i :: 0 <= i < |u| ==> u[i] == s[i];
  }

  // ─── numbers ─────────────────────────────────────────────────────────────

  function DigitValue(c: char): nat
    requires IsAsciiDigit(c)
  {
    c as int - '0' as int
  }

  /** The value of a string of decimal digits, most significant first. */
  function DigitsValue(s: string): nat
    requires forall i :: 0 <= i < |s| ==> IsAsciiDigit(s[i])
  {
    if s == [] then 0 else DigitsValue(s[..|s| - 1]) * 10 + DigitValue(s[|s| - 1])
  }

  /** Integer.parseInt on a string of ASCII digits: a NumberFormatException (None)
      for the empty string, a non-digit or a value above Integer.MAX_VALUE. */
  function ParseInt(s: string): (r: Option<int>)
    ensures r.Some? <==>
      s != [] && (forall i :: 0 <= i < |s| ==> IsAsciiDigit(s[i])) && DigitsValue(s) <= MaxInt
    ensures r.Some? ==> r.value == DigitsValue(s) && 0 <= r.value <= MaxInt
  {
    if s == [] || !(forall i :: 0 <= i < |s| ==> IsAsciiDigit(s[i])) then None
    else if DigitsValue(s) > MaxInt then None
    else Some(DigitsValue(s))
  }

  function NatToString(n: nat): (r: string)
    ensures r != []
    ensures forall i :: 0 <= i < |r| ==> IsAsciiDigit(r[i])
  {
    if n < 10 then [('0' as int + n) as char]
    else NatToString(n / 10) + [('0' as int + n % 10) as char]
  }

  lemma {:induction false} NatToStringRoundTrip(n: nat)
    ensures DigitsValue(NatToString(n)) == n
  {
    var s := NatToString(n);
    if n >= 10 {
      NatToStringRoundTrip(n / 10);
      assert s[..|s| - 1] == NatToString(n / 10);
    }
  }

  /** Double.intValue(): the real rounded toward zero, saturated to the int range. */
  function DoubleToInt(d: real): (r: Int32)
    ensures MinInt as real <= d <= 0.0 ==> r == -((-d).Floor)
    ensures 0.0 <= d <= MaxInt as real ==> r == d.Floor
    ensures d > MaxInt as real ==> r == MaxInt
    ensures d < MinInt as real ==> r == MinInt
  {
    var t := if d >= 0.0 then d.Floor else -((-d).Floor);
    if t > MaxInt then MaxInt else if t < MinInt then MinInt else t
  }

  /** Integer.toString / String.valueOf(int). */
  function IntToString(i: int): (r: string)
    ensures i >= 0 ==> (forall k :: 0 <= k < |r| ==> IsAsciiDigit(r[k])) && r != [] && DigitsValue(r) == i
    ensures i < 0 ==>
      && |r| > 1 && r[0] == '-' && (forall k :: 0 <= k < |r| - 1 ==> IsAsciiDigit(r[1..][k]))
      && DigitsValue(r[1..]) == -i
  {
    if i < 0 then
      NatToStringRoundTrip(-i);
      assert ("-" + NatToString(-i))[1..] == NatToString(-i);
      "-" + NatToString(-i)
    else
      NatToStringRoundTrip(i);
      NatToString(i)
  }

  // ─── joining and splitting ───────────────────────────────────────────────

  /** String.join(" ", parts). */
  function Join(parts: seq<string>): string
    decreases |parts|
  {
    if |parts| == 0 then ""
    else if |parts| == 1 then parts[0]
    else Join(parts[..|parts| - 1]) + " " + parts[|parts| - 1]
  }

  /** Each part followed by one space: what `append(part).append(" ")` leaves. */
  function Terminated(parts: seq<string>): string
    decreases |parts|
  {
    if parts == [] then "" else Terminated(parts[..|parts| - 1]) + parts[|parts| - 1] + " "
  }

  /** Concatenation is associative; stated once so that proofs about filters need
      not rediscover it element by element. */
  lemma AppendAssoc<T>(x: seq<T>, y: seq<T>, z: seq<T>)
    ensures x + (y + z) == (x + y) + z
  {
  }

  /** A non-empty sequence is its front followed by its last element. */
  lemma InitLast<T>(s: seq<T>)
    requires s != []
    ensures s[..|s| - 1] + [s[|s| - 1]] == s
  {
  }

  function Flatten<T>(groups: seq<seq<T>>): seq<T>
    decreases |groups|
  {
    if groups == [] then [] else Flatten(groups[..|groups| - 1]) + groups[|groups| - 1]
  }

  function JoinEach(groups: seq<seq<string>>): (r: seq<string>)
    ensures |r| == |groups|
    ensures forall i :: 0 <= i < |groups| ==> r[i] == Join(groups[i])
  {
    seq(|groups|, i requires 0 <= i < |groups| => Join(groups[i]))
  }

  /** Parts that `trim().isEmpty()` would keep, each already trimmed. */
  predicate AllTrimmedNonEmpty(parts: seq<string>) {
    forall i :: 0 <= i < |parts| ==> parts[i] != [] && IsTrimmed(parts[i])
  }

  lemma JoinAppend(parts: seq<string>, t: string)
    requires parts != []
    ensures Join(parts + [t]) == Join(parts) + " " + t
  {
    assert (parts + [t])[..|parts|] == parts;
  }

  lemma TerminatedAppend(parts: seq<string>, t: string)
    ensures Terminated(parts + [t]) == Terminated(parts) + t + " "
  {
    assert (parts + [t])[..|parts|] == parts;
  }

  lemma FlattenAppend<T>(groups: seq<seq<T>>, g: seq<T>)
    ensures Flatten(groups + [g]) == Flatten(groups) + g
  {
    assert (groups + [g])[..|groups|] == groups;
  }

  lemma {:induction false} JoinOfTrimmedIsTrimmed(parts: seq<string>)
    requires AllTrimmedNonEmpty(parts)
    ensures IsTrimmed(Join(parts))
    ensures parts != [] ==> Join(parts) != [] && Join(parts)[|Join(parts)| - 1] == parts[|parts| - 1][|parts[|parts| - 1]| - 1]
    ensures parts != [] ==> Join(parts)[0] == parts[0][0]
    decreases |parts|
  {
    if |parts| >= 2 {
      var init := parts[..|parts| - 1];
      JoinOfTrimmedIsTrimmed(init);
      assert init[0] == parts[0];
    }
  }

  /** Trimming the space-joined trimmed parts gives them back unchanged. */
  lemma JoinTrimIdentity(parts: seq<string>)
    requires AllTrimmedNonEmpty(parts)
    ensures Trim(Join(parts)) == Join(parts)
    ensures parts != [] ==> Join(parts) != []
  {
    JoinOfTrimmedIsTrimmed(parts);
  }

  /** The space-terminated parts, trimmed, are the space-joined parts. */
  lemma {:induction false} TerminatedIsJoinPlusSpace(parts: seq<string>)
    requires parts != []
    ensures Terminated(parts) == Join(parts) + " "
    decreases |parts|
  {
    if |parts| >= 2 {
      TerminatedIsJoinPlusSpace(parts[..|parts| - 1]);
    }
  }

  lemma TerminatedTrim(parts: seq<string>)
    requires AllTrimmedNonEmpty(parts)
    ensures Trim(Terminated(parts)) == Join(parts)
  {
    if parts == [] {
    } else {
      TerminatedIsJoinPlusSpace(parts);
      var j := Join(parts);
      JoinOfTrimmedIsTrimmed(parts);
      assert TrimStart(j + " ") == j + " ";
      assert TrimEnd(j + " ") == TrimEnd(j);
      assert TrimEnd(j) == j;
    }
  }

  /** Joining the joined groups is joining all their parts. */
  lemma {:induction false} JoinOfJoins(groups: seq<seq<string>>)
    requires forall i :: 0 <= i < |groups| ==> groups[i] != []
    ensures Join(JoinEach(groups)) == Join(Flatten(groups))
    decreases |groups|
  {
    if |groups| >= 1 {
      var init := groups[..|groups| - 1];
      var g := groups[|groups| - 1];
      JoinOfJoins(init);
      assert JoinEach(groups) == JoinEach(init) + [Join(g)] by {
        assert forall i :: 0 <= i < |init| ==> init[i] == groups[i];
      }
      assert Flatten(groups) == Flatten(init) + g;
      if |groups| == 1 {
        assert init == [];
        assert JoinEach(groups) == [Join(g)];
        assert Flatten(groups) == g;
      } else {
        JoinOfJoins(init);
        FlattenNonEmpty(init);
        JoinAppend(JoinEach(init), Join(g));
        JoinConcat(Flatten(init), g);
      }
    }
  }

  lemma FlattenNonEmpty(groups: seq<seq<string>>)
    requires groups != []
    requires forall i :: 0 <= i < |groups| ==> groups[i] != []
    ensures Flatten(groups) != []
  {
    assert Flatten(groups) == Flatten(groups[..|groups| - 1]) + groups[|groups| - 1];
  }

  lemma {:induction false} JoinConcat(a: seq<string>, b: seq<string>)
    requires a != [] && b != []
    ensures Join(a + b) == Join(a) + " " + Join(b)
    decreases |b|
  {
    if |b| == 1 {
      JoinAppend(a, b[0]);
    } else {
      var b' := b[..|b| - 1];
      JoinConcat(a, b');
      assert a + b == (a + b') + [b[|b| - 1]];
      JoinAppend(a + b', b[|b| - 1]);
      JoinAppend(b', b[|b| - 1]);
      assert b' + [b[|b| - 1]] == b;
    }
  }

  /** All pieces between occurrences of `sep`, empty ones included. */
  function SplitAll(s: string, sep: char): (r: seq<string>)
    ensures r != []
    ensures forall i :: 0 <= i < |r| ==> sep !in r[i]
    decreases |s|
  {
    if s == [] then [""]
    else if s[0] == sep then [""] + SplitAll(s[1..], sep)
    else
      var rest := SplitAll(s[1..], sep);
      [[s[0]] + rest[0]] + rest[1..]
  }

  function DropTrailingEmpty(pieces: seq<string>): (r: seq<string>)
    ensures |r| <= |pieces| && r == pieces[..|r|]
    ensures r == [] || r[|r| - 1] != ""
  {
    if pieces != [] && pieces[|pieces| - 1] == "" then DropTrailingEmpty(pieces[..|pieces| - 1])
    else pieces
  }

  /** String.join(sep, pieces) for a one-character separator. */
  function JoinWith(pieces: seq<string>, sep: char): string
    decreases |pieces|
  {
    if pieces == [] then ""
    else if |pieces| == 1 then pieces[0]
    else pieces[0] + [sep] + JoinWith(pieces[1..], sep)
  }

  /** `s` without its trailing run of `sep`. */
  function DropTrailingSep(s: string, sep: char): string
    decreases |s|
  {
    if s != [] && s[|s| - 1] == sep then DropTrailingSep(s[..|s| - 1], sep) else s
  }

  lemma {:induction false} JoinSplitAll(s: string, sep: char)
    ensures JoinWith(SplitAll(s, sep), sep) == s
    decreases |s|
  {
    if s != [] {
      JoinSplitAll(s[1..], sep);
      var rest := SplitAll(s[1..], sep);
      var r := SplitAll(s, sep);
      assert s == [s[0]] + s[1..];
      if s[0] == sep {
        assert r == [""] + rest && r[1..] == rest;
      } else {
        assert r == [[s[0]] + rest[0]] + rest[1..];
        if |rest| > 1 {
          assert r[1..] == rest[1..];
        }
      }
    }
  }

  lemma {:induction false} JoinWithSnoc(pieces: seq<string>, x: string, sep: char)
    requires pieces != []
    ensures JoinWith(pieces + [x], sep) == JoinWith(pieces, sep) + [sep] + x
    decreases |pieces|
  {
    if |pieces| == 1 {
      assert (pieces + [x])[1..] == [x];
    } else {
      JoinWithSnoc(pieces[1..], x, sep);
      assert (pieces + [x])[1..] == pieces[1..] + [x];
    }
  }

  /** Dropping the trailing empty pieces drops exactly the trailing separators of the
      joined text. */
  lemma {:induction false} DropTrailingEmptyJoin(pieces: seq<string>, sep: char)
    requires pieces != [] && forall i :: 0 <= i < |pieces| ==> sep !in pieces[i]
    ensures DropTrailingSep(JoinWith(pieces, sep), sep) == JoinWith(DropTrailingEmpty(pieces), sep)
    decreases |pieces|
  {
    var n := |pieces|;
    var last := pieces[n - 1];
    var init := pieces[..n - 1];
    assert init + [last] == pieces;
    if last != "" {
      var j := JoinWith(pieces, sep);
      if n > 1 {
        JoinWithSnoc(init, last, sep);
      }
      assert j[|j| - 1] == last[|last| - 1];
      assert last[|last| - 1] in last;
    } else if n > 1 {
      JoinWithSnoc(init, last, sep);
      var j := JoinWith(init, sep);
      assert JoinWith(pieces, sep) == j + [sep];
      assert (j + [sep])[..|j|] == j;
      DropTrailingEmptyJoin(init, sep);
    }
  }

  /** String.split("\n") for a one-character separator: the whole string when the
      separator does not occur; otherwise the pieces between separators without the
      trailing empty ones. Joining the pieces gives back the input less its trailing
      separators. */
  function Split(s: string, sep: char): (r: seq<string>)
    ensures forall i :: 0 <= i < |r| ==> sep !in r[i]
    ensures sep !in s ==> r == [s]
    ensures sep in s ==> r == [] || r[|r| - 1] != ""
    ensures JoinWith(r, sep) == DropTrailingSep(s, sep)
  {
    if sep !in s then
      assert s != [] ==> s[|s| - 1] in s;
      [s]
    else
      JoinSplitAll(s, sep);
      DropTrailingEmptyJoin(SplitAll(s, sep), sep);
      DropTrailingEmpty(SplitAll(s, sep))
  }
}
