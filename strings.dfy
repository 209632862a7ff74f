/** Models of the Python `str` builtins the grading and monitoring code rely on:
    `isspace`, `lower`, `strip`, `split()` without arguments, `sep.join`, substring
    search with `in`, and decimal rendering of integers as done by f-strings. */
module Strings {

  /** A character for which `str.isspace()` holds: the set `str.split()` splits on
      and the set the regular-expression class `\s` matches in a `str` pattern. */
  predicate IsSpace(c: char) {
    || c in {' ', '\t', '\n', '\r', '\U{000B}', '\U{000C}', '\U{001C}', '\U{001D}', '\U{001E}',
             '\U{001F}', '\U{0085}', '\U{00A0}', '\U{1680}', '\U{2028}', '\U{2029}', '\U{202F}',
             '\U{205F}', '\U{3000}'}
    || '\U{2000}' <= c <= '\U{200A}'
  }

  predicate IsAsciiLetter(c: char) {
    'a' <= c <= 'z' || 'A' <= c <= 'Z'
  }

  predicate IsLowerLetter(c: char) {
    'a' <= c <= 'z'
  }

  predicate IsUpperAscii(c: char) {
    'A' <= c <= 'Z'
  }

  /** `c.lower()`. ASCII capitals are folded; U+212A KELVIN SIGN and U+0130 LATIN
      CAPITAL LETTER I WITH DOT ABOVE are the two non-ASCII code points whose lower
      case contains an ASCII letter and are mapped as Python maps them. Every other
      character is kept as it is (see README: other non-ASCII case mappings). */
  function LowerChar(c: char): (r: string)
    ensures |r| >= 1
    ensures forall i :: 0 <= i < |r| ==> !IsUpperAscii(r[i])
    ensures IsUpperAscii(c) ==> |r| == 1 && IsLowerLetter(r[0]) && r[0] as int == c as int + 32
    ensures c == '\U{212A}' ==> r == "k"
    ensures c == '\U{0130}' ==> r == "i\U{0307}"
    ensures !IsUpperAscii(c) && c != '\U{212A}' && c != '\U{0130}' ==> r == [c]
  {
    if IsUpperAscii(c) then [(c as int + 32) as char]
    else if c == '\U{212A}' then "k"
    else if c == '\U{0130}' then "i\U{0307}"
    else [c]
  }

  /** `s.lower()`, character by character: without U+0130 (the one character whose
      lower case is two characters long) each character is replaced by its own
      lower case, position by position. */
  function Lower(s: string): (r: string)
    ensures forall i :: 0 <= i < |r| ==> !IsUpperAscii(r[i])
    ensures |r| >= |s|
    ensures (forall i :: 0 <= i < |s| ==> s[i] != '\U{0130}') ==>
              |r| == |s| && forall i :: 0 <= i < |s| ==> [r[i]] == LowerChar(s[i])
  {
    if s == [] then []
    else
      var head, tail := LowerChar(s[0]), Lower(s[1..]);
      assert (forall i :: 0 <= i < |s| ==> s[i] != '\U{0130}') ==> |head| == 1 && [head[0]] == head;
      head + tail
  }

  /** Lower-casing works piece by piece. */
  lemma {:induction false} LowerAppend(a: string, b: string)
    ensures Lower(a + b) == Lower(a) + Lower(b)
  {
    if a == [] {
      assert a + b == b;
    } else {
      var head, ab := LowerChar(a[0]), a + b;
      assert ab != [] && ab[0] == a[0] && ab[1..] == a[1..] + b;
      LowerAppend(a[1..], b);
      calc {
        Lower(ab);
        head + Lower(a[1..] + b);
        head + (Lower(a[1..]) + Lower(b));
        (head + Lower(a[1..])) + Lower(b);
        Lower(a) + Lower(b);
      }
    }
  }

  lemma {:induction false} LowerOfLowercase(s: string)
    requires forall i :: 0 <= i < |s| ==> IsLowerLetter(s[i]) || s[i] == ' '
    ensures Lower(s) == s
  {
    if s != [] {
      LowerOfLowercase(s[1..]);
    }
  }

  /** The position of the first character at or after `i` that is not white space
      (`|s|` when there is none): where `s.lstrip()` starts. */
  function SkipSpaces(s: string, i: nat): (k: nat)
    requires i <= |s|
    ensures i <= k <= |s|
    ensures forall j :: i <= j < k ==> IsSpace(s[j])
    ensures k < |s| ==> !IsSpace(s[k])
    decreases |s| - i
  {
    if i < |s| && IsSpace(s[i]) then SkipSpaces(s, i + 1) else i
  }

  /** The end of `s[k..e]` once the white space before `e` is cut off: where
      `s.rstrip()` ends. */
  function DropSpaces(s: string, k: nat, e: nat): (n: nat)
    requires k <= e <= |s|
    ensures k <= n <= e
    ensures forall j :: n <= j < e ==> IsSpace(s[j])
    ensures n > k ==> !IsSpace(s[n - 1])
    decreases e
  {
    if e > k && IsSpace(s[e - 1]) then DropSpaces(s, k, e - 1) else e
  }

  /** `r` occurs in `s` starting at position `k`. */
  predicate SliceAt(s: string, r: string, k: int) {
    0 <= k <= |s| - |r| && s[k..k + |r|] == r
  }

  /** `r` is `s` with a white-space prefix of length `k` and a white-space suffix cut off. */
  predicate TrimmedAt(s: string, r: string, k: int) {
    && SliceAt(s, r, k)
    && (forall i :: 0 <= i < k ==> IsSpace(s[i]))
    && (forall i :: k + |r| <= i < |s| ==> IsSpace(s[i]))
  }

  /** `s.strip()`: the result is a slice of `s` with no white space at either end,
      and everything cut off is white space. */
  function Strip(s: string): (r: string)
    ensures r != [] ==> !IsSpace(r[0]) && !IsSpace(r[|r| - 1])
    ensures exists k :: TrimmedAt(s, r, k)
  {
    var k := SkipSpaces(s, 0);
    var e := DropSpaces(s, k, |s|);
    assert TrimmedAt(s, s[k..e], k);
    s[k..e]
  }

  /** `Strip`'s contract determines its result: at most one slice of `s` has no white
      space at its ends and only white space around it. */
  lemma StripUnique(s: string, r: string, k: int)
    requires TrimmedAt(s, r, k)
    requires r != [] ==> !IsSpace(r[0]) && !IsSpace(r[|r| - 1])
    ensures Strip(s) == r
  {
    var t := Strip(s);
    var j :| TrimmedAt(s, t, j);
    TrimmedUnique(s, r, k, t, j);
  }

  lemma TrimmedUnique(s: string, r: string, k: int, t: string, j: int)
    requires TrimmedAt(s, r, k) && (r != [] ==> !IsSpace(r[0]) && !IsSpace(r[|r| - 1]))
    requires TrimmedAt(s, t, j) && (t != [] ==> !IsSpace(t[0]) && !IsSpace(t[|t| - 1]))
    ensures r == t
  {
    if r != [] {
      assert s[k] == r[0] && s[k + |r| - 1] == r[|r| - 1];
      NonSpaceInside(s, t, j, k);
      NonSpaceInside(s, t, j, k + |r| - 1);
      assert s[j] == t[0] && s[j + |t| - 1] == t[|t| - 1];
      NonSpaceInside(s, r, k, j);
      NonSpaceInside(s, r, k, j + |t| - 1);
      assert j == k && |t| == |r|;
    }
  }

  /** Every non-space character of `s` lies inside the trimmed slice. */
  lemma NonSpaceInside(s: string, r: string, k: int, p: int)
    requires TrimmedAt(s, r, k) && 0 <= p < |s| && !IsSpace(s[p])
    ensures k <= p < k + |r|
  {
  }

  /** A token `str.split()` can produce: non-empty, without white space. */
  predicate IsWord(w: string) {
    w != [] && forall i :: 0 <= i < |w| ==> !IsSpace(w[i])
  }

  /** Length of the run of non-space characters at the start of `s`. */
  function WordLength(s: string): (n: nat)
    ensures n <= |s|
    ensures forall i :: 0 <= i < n ==> !IsSpace(s[i])
    ensures n < |s| ==> IsSpace(s[n])
  {
    if s == [] || IsSpace(s[0]) then 0 else 1 + WordLength(s[1..])
  }

  /** `s.split()`: the maximal runs of non-space characters, in order. */
  function Split(s: string): (ws: seq<string>)
    ensures forall i :: 0 <= i < |ws| ==> IsWord(ws[i])
    ensures forall i, j :: 0 <= i < |ws| && 0 <= j < |ws[i]| ==> ws[i][j] in s
    ensures ws == [] <==> forall i :: 0 <= i < |s| ==> IsSpace(s[i])
    decreases |s|
  {
    if s == [] then []
    else if IsSpace(s[0]) then
      var ws := Split(s[1..]);
      assert (forall i :: 0 <= i < |s| ==> IsSpace(s[i])) <==> forall i :: 0 <= i < |s[1..]| ==> IsSpace(s[1..][i]) by {
        if forall i :: 0 <= i < |s[1..]| ==> IsSpace(s[1..][i]) {
          forall i | 0 <= i < |s| ensures IsSpace(s[i]) {
            if i > 0 { assert s[i] == s[1..][i - 1]; }
          }
        }
      }
      assert forall i, j :: 0 <= i < |ws| && 0 <= j < |ws[i]| ==> ws[i][j] in s by {
        forall i, j | 0 <= i < |ws| && 0 <= j < |ws[i]| ensures ws[i][j] in s {
          var k :| 0 <= k < |s[1..]| && s[1..][k] == ws[i][j];
          assert s[k + 1] == ws[i][j];
        }
      }
      ws
    else
      var n := WordLength(s);
      var rest := Split(s[n..]);
      var ws := [s[..n]] + rest;
      assert forall i, j :: 0 <= i < |ws| && 0 <= j < |ws[i]| ==> ws[i][j] in s by {
        forall i, j | 0 <= i < |ws| && 0 <= j < |ws[i]| ensures ws[i][j] in s {
          if i == 0 {
            assert ws[i][j] == s[j];
          } else {
            assert ws[i] == rest[i - 1];
            var k :| 0 <= k < |s[n..]| && s[n..][k] == ws[i][j];
            assert s[n + k] == ws[i][j];
          }
        }
      }
      ws
  }

  /** White space before the first word is skipped. */
  lemma SplitSpaceThen(c: char, t: string)
    requires IsSpace(c)
    ensures Split([c] + t) == Split(t)
  {
    assert ([c] + t)[1..] == t;
  }

  /** A run of non-space characters that ends at the end of the string or at white
      space is the first word; splitting goes on after it. With `SplitSpaceThen` and
      the empty case this determines `Split` on every string: the words are the
      maximal runs of non-space characters, in order. */
  lemma SplitWordThen(w: string, t: string)
    requires IsWord(w)
    requires t == [] || IsSpace(t[0])
    ensures Split(w + t) == [w] + Split(t)
  {
    WordLengthOfWordThenSpace(w, t);
    assert (w + t)[..|w|] == w;
    assert (w + t)[|w|..] == t;
  }

  /** `sep.join(ws)`. */
  function JoinWith(sep: string, ws: seq<string>): string {
    if ws == [] then ""
    else if |ws| == 1 then ws[0]
    else ws[0] + sep + JoinWith(sep, ws[1..])
  }

  /** `' '.join(ws)`. */
  function Join(ws: seq<string>): string {
    JoinWith(" ", ws)
  }

  /** A string with no space at either end and no two spaces in a row. */
  predicate SingleSpaced(s: string) {
    && (s != [] ==> s[0] != ' ' && s[|s| - 1] != ' ')
    && forall i :: 0 <= i < |s| - 1 ==> !(s[i] == ' ' && s[i + 1] == ' ')
  }

  lemma {:induction false} WordLengthOfWordThenSpace(w: string, t: string)
    requires IsWord(w)
    requires t == [] || IsSpace(t[0])
    ensures WordLength(w + t) == |w|
  {
    if |w| > 1 {
      assert (w + t)[1..] == w[1..] + t;
      WordLengthOfWordThenSpace(w[1..], t);
    } else {
      assert (w + t)[1..] == t;
    }
  }

  /** Splitting words joined by single spaces gives the words back. */
  lemma {:induction false} SplitJoin(ws: seq<string>)
    requires forall i :: 0 <= i < |ws| ==> IsWord(ws[i])
    ensures Split(Join(ws)) == ws
  {
    if ws == [] {
    } else if |ws| == 1 {
      var w := ws[0];
      WordLengthOfWordThenSpace(w, "");
      assert w + "" == w;
      assert w[|w|..] == [];
      assert w[..|w|] == w;
    } else {
      var w := ws[0];
      var rest := JoinWith(" ", ws[1..]);
      var s := w + " " + rest;
      assert Join(ws) == s;
      WordLengthOfWordThenSpace(w, " " + rest);
      assert s == w + (" " + rest);
      assert s[..|w|] == w;
      assert s[|w|..] == " " + rest;
      assert (" " + rest)[1..] == rest;
      SplitJoin(ws[1..]);
    }
  }

  /** Words joined by single spaces form a single-spaced string whose characters
      are spaces or characters of the words. */
  lemma {:induction false} JoinOfLowerWords(ws: seq<string>)
    requires forall i :: 0 <= i < |ws| ==> IsWord(ws[i])
    requires forall i, j :: 0 <= i < |ws| && 0 <= j < |ws[i]| ==> IsLowerLetter(ws[i][j])
    ensures SingleSpaced(Join(ws))
    ensures forall k :: 0 <= k < |Join(ws)| ==> IsLowerLetter(Join(ws)[k]) || Join(ws)[k] == ' '
    ensures ws != [] ==> Join(ws) != []
  {
    if ws == [] {
    } else if |ws| == 1 {
      assert Join(ws) == ws[0];
    } else {
      var w := ws[0];
      var rest := Join(ws[1..]);
      JoinOfLowerWords(ws[1..]);
      var s := w + " " + rest;
      assert Join(ws) == s;
      assert forall k :: 0 <= k < |w| ==> s[k] == w[k];
      assert s[|w|] == ' ';
      assert forall k :: |w| < k < |s| ==> s[k] == rest[k - |w| - 1];
    }
  }

  /** `needle in hay` for strings. */
  function Contains(hay: string, needle: string): (b: bool)
    ensures b <==> exists i :: SliceAt(hay, needle, i)
    decreases |hay|
  {
    if |needle| > |hay| then false
    else if hay[..|needle|] == needle then assert SliceAt(hay, needle, 0); true
    else
      var r := Contains(hay[1..], needle);
      assert r ==> exists i :: SliceAt(hay, needle, i) by {
        if r {
          var i :| SliceAt(hay[1..], needle, i);
          assert hay[i + 1..i + 1 + |needle|] == hay[1..][i..i + |needle|];
          assert SliceAt(hay, needle, i + 1);
        }
      }
      assert (exists i :: SliceAt(hay, needle, i)) ==> r by {
        if exists i :: SliceAt(hay, needle, i) {
          var i :| SliceAt(hay, needle, i);
          assert i != 0;
          assert hay[1..][i - 1..i - 1 + |needle|] == hay[i..i + |needle|];
          assert SliceAt(hay[1..], needle, i - 1);
        }
      }
      r
  }

  function DigitChar(d: nat): (c: char)
    requires d < 10
    ensures '0' <= c <= '9' && c as int - '0' as int == d
  {
    ('0' as int + d) as char
  }

  /** The number a string of decimal digits denotes (0 for the empty string). */
  function DecimalValue(s: string): nat
    requires forall i :: 0 <= i < |s| ==> '0' <= s[i] <= '9'
  {
    if s == [] then 0 else 10 * DecimalValue(s[..|s| - 1]) + (s[|s| - 1] as int - '0' as int)
  }

  /** Decimal rendering of a natural number, as `str(n)`: digits without a leading
      zero that denote `n`. */
  function NatToString(n: nat): (s: string)
    ensures s != []
    ensures forall i :: 0 <= i < |s| ==> '0' <= s[i] <= '9'
    ensures |s| > 1 ==> s[0] != '0'
    ensures DecimalValue(s) == n
  {
    if n < 10 then [DigitChar(n)]
    else
      var init := NatToString(n / 10);
      var s := init + [DigitChar(n % 10)];
      assert s[..|s| - 1] == init;
      s
  }

  /** Decimal rendering of an integer, as `str(i)`: a minus sign before the digits
      of a negative number. */
  function IntToString(i: int): (s: string)
    ensures s != []
    ensures i >= 0 ==> s == NatToString(i) && DecimalValue(s) == i
    ensures i < 0 ==> s[0] == '-' && s[1..] == NatToString(-i) && DecimalValue(s[1..]) == -i
  {
    if i < 0 then "-" + NatToString(-i) else NatToString(i)
  }

  /** Different integers render differently. */
  lemma IntToStringInjective(i: int, j: int)
    ensures IntToString(i) == IntToString(j) ==> i == j
  {
  }

  /** Zero-padded decimal rendering with at least `width` digits, as `%0<width>d`. */
  function ZeroPad(n: nat, width: nat): (s: string)
    ensures |s| >= width
    ensures forall i :: 0 <= i < |s| ==> '0' <= s[i] <= '9'
  {
    var d := NatToString(n);
    if |d| >= width then d else seq(width - |d|, _ => '0') + d
  }
}
