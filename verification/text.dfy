/** The Python `str` built-ins the scripts rely on, over `string` (a `seq<char>`):
    `lower`, `strip`, `rstrip(c)`, `replace(p, "")`, `removeprefix`, `in`, `startswith`,
    `splitlines`, `join`, `int(...)` on text, and the ordering used by `sorted`. */
module Text {
  import opened Options
  import Seqs

  // ---------------------------------------------------------------- characters

  /** Python's `str.isspace()`: exactly the characters `str.strip()` removes. */
  predicate IsSpace(c: char) {
    || c == ' '
    || ('\t' <= c <= '\r')
    || ('\U{1C}' <= c <= '\U{1F}')
    || c == '\U{85}' || c == '\U{A0}' || c == '\U{1680}'
    || ('\U{2000}' <= c <= '\U{200A}')
    || c == '\U{2028}' || c == '\U{2029}' || c == '\U{202F}' || c == '\U{205F}' || c == '\U{3000}'
  }

  /** The line boundaries of Python's `str.splitlines()` (`"\r\n"` counts as one). */
  predicate IsLineBreak(c: char) {
    || ('\n' <= c <= '\r')
    || ('\U{1C}' <= c <= '\U{1E}')
    || c == '\U{85}' || c == '\U{2028}' || c == '\U{2029}'
  }

  predicate NoLineBreak(s: string) {
    forall i :: 0 <= i < |s| ==> !IsLineBreak(s[i])
  }

  predicate IsUpper(c: char) { 'A' <= c <= 'Z' }

  predicate IsDigit(c: char) { '0' <= c <= '9' }

  /** `str.lower()` on one character (ASCII letters only). */
  function LowerChar(c: char): char {
    if IsUpper(c) then (c as int + 32) as char else c
  }

  // ---------------------------------------------------------------- lower

  /** `s.lower()` */
  function Lower(s: string): (r: string)
    ensures |r| == |s| && SameUpToCase(r, s)
    ensures forall i :: 0 <= i < |r| ==> !IsUpper(r[i])
  {
    seq(|s|, i requires 0 <= i < |s| => LowerChar(s[i]))
  }

  /** Two strings that differ only in the case of their letters. */
  predicate SameUpToCase(a: string, b: string) {
    |a| == |b| && forall i :: 0 <= i < |a| ==> LowerChar(a[i]) == LowerChar(b[i])
  }

  lemma LowerSameUpToCase(a: string, b: string)
    requires SameUpToCase(a, b)
    ensures Lower(a) == Lower(b)
  {
  }

  // ---------------------------------------------------------------- strip

  /** `s.lstrip()` */
  function LStrip(s: string): (r: string)
    ensures |r| <= |s| && r == s[|s| - |r|..]
    ensures r == [] || !IsSpace(r[0])
  {
    if s != [] && IsSpace(s[0]) then LStrip(s[1..]) else s
  }

  /** What `lstrip` drops is whitespace. */
  lemma {:induction false} LStripDropsSpace(s: string)
    ensures forall i :: 0 <= i < |s| - |LStrip(s)| ==> IsSpace(s[i])
    decreases |s|
  {
    if s != [] && IsSpace(s[0]) {
      LStripDropsSpace(s[1..]);
      forall i | 0 <= i < |s| - |LStrip(s)| ensures IsSpace(s[i]) {
        if i > 0 {
          assert s[i] == s[1..][i - 1];
        }
      }
    }
  }

  /** `s.rstrip()` */
  function RStrip(s: string): (r: string)
    ensures |r| <= |s| && r == s[..|r|]
    ensures r == [] || !IsSpace(r[|r| - 1])
  {
    if s != [] && IsSpace(s[|s| - 1]) then RStrip(s[..|s| - 1]) else s
  }

  /** What `rstrip` drops is whitespace. */
  lemma {:induction false} RStripDropsSpace(s: string)
    ensures forall i :: |RStrip(s)| <= i < |s| ==> IsSpace(s[i])
    decreases |s|
  {
    if s != [] && IsSpace(s[|s| - 1]) {
      RStripDropsSpace(s[..|s| - 1]);
      forall i | |RStrip(s)| <= i < |s| ensures IsSpace(s[i]) {
        if i < |s| - 1 {
          assert s[i] == s[..|s| - 1][i];
        }
      }
    }
  }

  /** `s.strip()`: neither starts nor ends with whitespace (see `StripDropsOnlySpace`). */
  function Strip(s: string): (r: string)
    ensures |r| <= |s|
    ensures r == [] || (!IsSpace(r[0]) && !IsSpace(r[|r| - 1]))
  {
    RStrip(LStrip(s))
  }

  /** `s.strip()` is a piece of `s` with only whitespace around it. */
  lemma StripDropsOnlySpace(s: string)
    ensures exists a :: StrippedAt(s, Strip(s), a)
  {
    var l := LStrip(s);
    LStripDropsSpace(s);
    RStripDropsSpace(l);
    StripWitness(s, l, RStrip(l));
    assert StrippedAt(s, Strip(s), |s| - |l|);
  }

  /** `r` is `s[a..a + |r|]`, and everything of `s` around it is whitespace. */
  predicate StrippedAt(s: string, r: string, a: int) {
    && 0 <= a && a + |r| <= |s| && r == s[a..a + |r|]
    && (forall i :: 0 <= i < a ==> IsSpace(s[i]))
    && (forall i :: a + |r| <= i < |s| ==> IsSpace(s[i]))
  }

  lemma StripWitness(s: string, l: string, r: string)
    requires |l| <= |s| && l == s[|s| - |l|..] && forall i :: 0 <= i < |s| - |l| ==> IsSpace(s[i])
    requires |r| <= |l| && r == l[..|r|] && forall i :: |r| <= i < |l| ==> IsSpace(l[i])
    ensures StrippedAt(s, r, |s| - |l|)
  {
    var a := |s| - |l|;
    assert l == s[a..];
    assert r == l[..|r|];
    assert r == s[a..a + |r|];
    forall i | a + |r| <= i < |s| ensures IsSpace(s[i]) {
      assert s[i] == l[i - a];
    }
  }

  /** `s.strip()` only drops whitespace at both ends: the result is a piece of `s`. */
  lemma StripIsSlice(s: string)
    ensures Contains(s, Strip(s))
  {
    var l := LStrip(s);
    var r := RStrip(l);
    var a := |s| - |l|;
    assert r == s[a..a + |r|] by {
      assert l == s[a..];
      assert r == l[..|r|];
    }
    ContainsSlice(s, a, a + |r|);
  }

  /** A string without surrounding whitespace is its own strip. */
  lemma StripNoSurroundingSpace(s: string)
    requires s == [] || (!IsSpace(s[0]) && !IsSpace(s[|s| - 1]))
    ensures Strip(s) == s
  {
  }

  lemma StripIdempotent(s: string)
    ensures Strip(Strip(s)) == Strip(s)
  {
    StripNoSurroundingSpace(Strip(s));
  }

  /** `s.rstrip(c)` for a single character `c`. */
  function RStripChar(s: string, c: char): (r: string)
    ensures |r| <= |s| && r == s[..|r|]
    ensures r == [] || r[|r| - 1] != c
    ensures forall i :: |r| <= i < |s| ==> s[i] == c
  {
    if s != [] && s[|s| - 1] == c then RStripChar(s[..|s| - 1], c) else s
  }

  // ---------------------------------------------------------------- search and replace

  /** Python's `needle in hay` on strings. */
  predicate Contains(hay: string, needle: string)
    ensures Contains(hay, needle) ==> |needle| <= |hay|
  {
    exists i :: 0 <= i <= |hay| && needle <= hay[i..]
  }

  /** The empty string is contained in every string. */
  lemma ContainsEmpty(hay: string)
    ensures Contains(hay, "")
  {
    assert "" <= hay[0..];
  }

  /** Every slice of a string is contained in it. */
  lemma ContainsSlice(hay: string, i: nat, j: nat)
    requires i <= j <= |hay|
    ensures Contains(hay, hay[i..j])
  {
    assert hay[i..j] <= hay[i..];
  }

  /** `s.replace(pat, "")`: one left-to-right pass that deletes every
      non-overlapping occurrence of `pat`. */
  function RemoveAll(s: string, pat: string): (r: string)
    requires pat != []
    ensures |r| <= |s|
    ensures forall c :: c in r ==> c in s
    decreases |s|
  {
    if |s| < |pat| then s
    else if pat <= s then RemoveAll(s[|pat|..], pat)
    else [s[0]] + RemoveAll(s[1..], pat)
  }

  /** Where `pat` does not start at `i`, the character there is kept. */
  lemma RemoveAllKeep(s: string, pat: string, i: nat)
    requires pat != [] && i + |pat| <= |s| && s[i] != pat[0]
    ensures RemoveAll(s[i..], pat) == [s[i]] + RemoveAll(s[i + 1..], pat)
  {
    assert s[i..][1..] == s[i + 1..];
  }

  /** Characters that cannot start `pat` are kept, while at least `|pat|` characters follow. */
  lemma {:induction false} RemoveAllKeepPrefix(x: string, rest: string, pat: string)
    requires pat != [] && |pat| <= |rest| && forall i :: 0 <= i < |x| ==> x[i] != pat[0]
    ensures RemoveAll(x + rest, pat) == x + RemoveAll(rest, pat)
    decreases |x|
  {
    if x == [] {
      assert x + rest == rest;
    } else {
      Seqs.HeadTail(x, rest);
      RemoveAllKeep(x + rest, pat, 0);
      forall i | 0 <= i < |x[1..]| ensures x[1..][i] != pat[0] {
        assert x[1..][i] == x[i + 1];
      }
      RemoveAllKeepPrefix(x[1..], rest, pat);
      Seqs.HeadTail(x, RemoveAll(rest, pat));
    }
  }

  /** `pat` between a part that cannot start it and a last window that does not start it
      is the one occurrence deleted. */
  lemma RemoveAllMiddle(x: string, pat: string, z: string)
    requires pat != [] && forall i :: 0 <= i < |x| ==> x[i] != pat[0]
    requires |z| == |pat| && z[0] != pat[0]
    ensures RemoveAll(x + (pat + z), pat) == x + z
  {
    RemoveAllKeepPrefix(x, pat + z, pat);
    RemoveAllSkip(pat + z, pat, 0);
    assert (pat + z)[0..] == pat + z && (pat + z)[|pat|..] == z && (pat + z)[0..|pat|] == pat;
    RemoveAllLastWindow(z, pat);
  }

  /** A last window of `|pat|` characters that does not start with `pat[0]` is kept. */
  lemma RemoveAllLastWindow(z: string, pat: string)
    requires pat != [] && |z| == |pat| && z[0] != pat[0]
    ensures RemoveAll(z, pat) == z
  {
    RemoveAllKeep(z, pat, 0);
    assert z[0..] == z;
    assert RemoveAll(z[1..], pat) == z[1..];
    assert [z[0]] + z[1..] == z;
  }


  /** Where `pat` starts at `i`, it is deleted. */
  lemma RemoveAllSkip(s: string, pat: string, i: nat)
    requires pat != [] && i + |pat| <= |s| && s[i..i + |pat|] == pat
    ensures RemoveAll(s[i..], pat) == RemoveAll(s[i + |pat|..], pat)
  {
    assert pat <= s[i..];
    assert s[i..][|pat|..] == s[i + |pat|..];
  }

  /** `pat` occurs in `s` at none of the positions before `k`. */
  predicate NoOccurrenceBefore(s: string, pat: string, k: nat)
    requires k <= |s|
  {
    forall j :: 0 <= j < k ==> !(pat <= s[j..])
  }

  /** `replace` keeps everything before the first occurrence of `pat`, deletes that
      occurrence and goes on after it. With `RemoveAllAbsent` this fixes the result. */
  lemma {:induction false} RemoveAllFirst(x: string, pat: string, y: string)
    requires pat != [] && NoOccurrenceBefore(x + (pat + y), pat, |x|)
    ensures RemoveAll(x + (pat + y), pat) == x + RemoveAll(y, pat)
    decreases |x|
  {
    var s := x + (pat + y);
    if x == [] {
      assert s == pat + y && s[|pat|..] == y;
    } else {
      Seqs.HeadTail(x, pat + y);
      assert !(pat <= s) by {
        assert s[0..] == s;
      }
      NoOccurrenceShift(s, pat, |x|);
      RemoveAllFirst(x[1..], pat, y);
      Seqs.HeadTail(x, RemoveAll(y, pat));
    }
  }

  lemma NoOccurrenceShift(s: string, pat: string, k: nat)
    requires 0 < k <= |s| && NoOccurrenceBefore(s, pat, k)
    ensures NoOccurrenceBefore(s[1..], pat, k - 1)
  {
    forall j | 0 <= j < k - 1 ensures !(pat <= s[1..][j..]) {
      assert s[1..][j..] == s[j + 1..];
    }
  }

  /** Where `pat` does not occur, `replace` changes nothing. */
  lemma {:induction false} RemoveAllAbsent(s: string, pat: string)
    requires pat != [] && !Contains(s, pat)
    ensures RemoveAll(s, pat) == s
    decreases |s|
  {
    if |s| >= |pat| {
      assert !(pat <= s[0..]);
      assert s[0..] == s;
      forall i | 0 <= i <= |s[1..]|
        ensures !(pat <= s[1..][i..])
      {
        assert s[1..][i..] == s[i + 1..];
      }
      RemoveAllAbsent(s[1..], pat);
    }
  }

  /** `s.removeprefix(p)` */
  function DropPrefix(s: string, p: string): (r: string)
    ensures |r| <= |s| && r == s[|s| - |r|..]
    ensures p <= s ==> p + r == s
    ensures !(p <= s) ==> r == s
  {
    if p <= s then s[|p|..] else s
  }

  /** `s.startswith(p)` */
  predicate StartsWith(s: string, p: string) { p <= s }

  // ---------------------------------------------------------------- lines

  /** Position of the first line boundary at or after `i`, or `|s|`. */
  function LineEnd(s: string, i: nat): (k: nat)
    requires i <= |s|
    ensures i <= k <= |s|
    ensures forall j :: i <= j < k ==> !IsLineBreak(s[j])
    ensures k < |s| ==> IsLineBreak(s[k])
    decreases |s| - i
  {
    if i == |s| || IsLineBreak(s[i]) then i else LineEnd(s, i + 1)
  }

  /** `s.splitlines()`: the lines of `s` without their boundaries; a final boundary
      does not open an empty last line. */
  function SplitLines(s: string): seq<string>
    decreases |s|
  {
    if s == [] then []
    else
      var k := LineEnd(s, 0);
      var next := if k == |s| then k
                  else if s[k] == '\r' && k + 1 < |s| && s[k + 1] == '\n' then k + 2
                  else k + 1;
      [s[..k]] + SplitLines(s[next..])
  }

  /** No line holds a line break. */
  lemma {:induction false} SplitLinesNoBreak(s: string)
    ensures forall i :: 0 <= i < |SplitLines(s)| ==> NoLineBreak(SplitLines(s)[i])
    decreases |s|
  {
    if s != [] {
      var k := LineEnd(s, 0);
      var next := if k == |s| then k
                  else if s[k] == '\r' && k + 1 < |s| && s[k + 1] == '\n' then k + 2
                  else k + 1;
      SplitLinesNoBreak(s[next..]);
      assert SplitLines(s) == [s[..k]] + SplitLines(s[next..]);
    }
  }

  /** A line followed by `"\n"` is split off as one line. */
  lemma SplitLinesCons(line: string, rest: string)
    requires NoLineBreak(line)
    ensures SplitLines(line + "\n" + rest) == [line] + SplitLines(rest)
  {
    var s := line + "\n" + rest;
    assert s[|line|] == '\n';
    assert LineEnd(s, 0) == |line|;
    assert s[..|line|] == line;
    assert s[|line| + 1..] == rest;
  }

  /** A last line without a boundary after it. */
  lemma SplitLinesLast(line: string)
    requires NoLineBreak(line) && line != []
    ensures SplitLines(line) == [line]
  {
    assert LineEnd(line, 0) == |line|;
    assert line[..|line|] == line;
  }

  /** `sep.join(parts)` */
  function Join(sep: string, parts: seq<string>): (r: string)
    ensures parts == [] ==> r == ""
    ensures parts != [] ==> parts[0] <= r
    ensures parts != [] ==> |parts[|parts| - 1]| <= |r| && r[|r| - |parts[|parts| - 1]|..] == parts[|parts| - 1]
  {
    if |parts| == 0 then ""
    else if |parts| == 1 then parts[0]
    else parts[0] + sep + Join(sep, parts[1..])
  }

  /** Joining lines with `"\n"` and splitting them again gives the lines back, as long as
      no line holds a boundary and the last line is not empty. */
  lemma {:induction false} SplitLinesJoin(lines: seq<string>)
    requires forall i :: 0 <= i < |lines| ==> NoLineBreak(lines[i])
    requires lines != [] && lines[|lines| - 1] != []
    ensures SplitLines(Join("\n", lines)) == lines
  {
    if |lines| == 1 {
      SplitLinesLast(lines[0]);
    } else {
      var rest := lines[1..];
      forall i | 0 <= i < |rest| ensures NoLineBreak(rest[i]) {
        assert rest[i] == lines[i + 1];
      }
      assert rest[|rest| - 1] == lines[|lines| - 1];
      SplitLinesJoin(rest);
      SplitLinesCons(lines[0], Join("\n", rest));
      Seqs.HeadTail(lines, []);
    }
  }


  // ---------------------------------------------------------------- int()

  function DigitValue(c: char): nat
    requires IsDigit(c)
  {
    c as int - '0' as int
  }

  function DigitChar(d: nat): (c: char)
    requires d < 10
    ensures IsDigit(c) && DigitValue(c) == d
  {
    ('0' as int + d) as char
  }

  /** The characters `int()` accepts after the sign: digits, with single underscores
      only between two digits. */
  predicate DigitGroups(s: string) {
    && s != []
    && IsDigit(s[0]) && IsDigit(s[|s| - 1])
    && (forall i :: 0 <= i < |s| ==> IsDigit(s[i]) || s[i] == '_')
    && (forall i :: 0 <= i < |s| - 1 ==> !(s[i] == '_' && s[i + 1] == '_'))
  }

  /** The base-10 value of the digits of `s`; underscores are skipped. */
  function DecimalValue(s: string): nat
    requires forall i :: 0 <= i < |s| ==> IsDigit(s[i]) || s[i] == '_'
  {
    if s == [] then 0
    else if s[|s| - 1] == '_' then DecimalValue(s[..|s| - 1])
    else DecimalValue(s[..|s| - 1]) * 10 + DigitValue(s[|s| - 1])
  }

  /** Python's `int(s)` on a string: `None` where Python raises `ValueError`. */
  function ParseInt(s: string): (r: Option<int>)
    ensures Strip(s) == [] ==> r.None?
    ensures r.Some? && Strip(s)[0] == '-' ==> r.value <= 0
    ensures r.Some? && Strip(s)[0] != '-' ==> r.value >= 0
  {
    ParseStripped(Strip(s))
  }

  /** Whitespace around the text does not change what `int()` reads. */
  lemma ParseIntIgnoresSurroundingSpace(s: string)
    ensures ParseInt(Strip(s)) == ParseInt(s)
  {
    StripIdempotent(s);
  }

  /** `int()` once surrounding whitespace is gone: an optional sign, then digit groups. */
  function ParseStripped(t: string): (r: Option<int>)
    ensures t == [] ==> r.None?
    ensures r.Some? ==> t != [] && (if t[0] == '-' then r.value <= 0 else r.value >= 0)
  {
    if t != [] && (t[0] == '+' || t[0] == '-') then
      if DigitGroups(t[1..]) then
        Some(if t[0] == '-' then -(DecimalValue(t[1..]) as int) else DecimalValue(t[1..]))
      else None
    else if DigitGroups(t) then Some(DecimalValue(t))
    else None
  }

  /** `str(n)` for a natural number. */
  function DecimalString(n: nat): (s: string)
    ensures s != [] && forall i :: 0 <= i < |s| ==> IsDigit(s[i])
  {
    if n < 10 then [DigitChar(n)] else DecimalString(n / 10) + [DigitChar(n % 10)]
  }

  lemma {:induction false} DecimalValueOfString(n: nat)
    ensures DecimalValue(DecimalString(n)) == n
  {
    if n >= 10 {
      var s := DecimalString(n);
      assert s[..|s| - 1] == DecimalString(n / 10);
      DecimalValueOfString(n / 10);
    }
  }

  /** A non-empty run of digits is read as its value. */
  lemma ParseIntUnsigned(s: string)
    requires s != [] && forall i :: 0 <= i < |s| ==> IsDigit(s[i])
    ensures ParseInt(s) == Some(DecimalValue(s) as int)
  {
    DigitNotSpace(s[0]);
    DigitNotSpace(s[|s| - 1]);
    StripNoSurroundingSpace(s);
    ParseStrippedDigits(s);
  }

  lemma DigitNotSpace(c: char)
    requires IsDigit(c)
    ensures !IsSpace(c)
  {
  }

  lemma ParseStrippedDigits(t: string)
    requires t != [] && forall i :: 0 <= i < |t| ==> IsDigit(t[i])
    ensures ParseStripped(t) == Some(DecimalValue(t) as int)
  {
    assert DigitGroups(t);
    assert t[0] != '+' && t[0] != '-';
  }

  /** `int(str(n)) == n` */
  lemma ParseIntDecimal(n: nat)
    ensures ParseInt(DecimalString(n)) == Some(n)
  {
    var s := DecimalString(n);
    DecimalValueOfString(n);
    ParseIntUnsigned(s);
  }

  // ---------------------------------------------------------------- ordering

  /** Python's `a < b` on strings: code-point order, a proper prefix first. */
  predicate LexLess(a: string, b: string)
    ensures a < b ==> LexLess(a, b)
    ensures LexLess(a, b) ==> !(b <= a)
    decreases |a|
  {
    if a == [] then b != []
    else if b == [] then false
    else if a[0] != b[0] then a[0] < b[0]
    else LexLess(a[1..], b[1..])
  }

  lemma {:induction false} LexLessIrreflexive(a: string)
    ensures !LexLess(a, a)
    decreases |a|
  {
    if a != [] {
      LexLessIrreflexive(a[1..]);
    }
  }

  lemma {:induction false} LexLessAsymmetric(a: string, b: string)
    requires LexLess(a, b)
    ensures !LexLess(b, a)
    decreases |a|
  {
    if a != [] && b != [] && a[0] == b[0] {
      LexLessAsymmetric(a[1..], b[1..]);
    }
  }

  /** Python's `sorted` result on distinct strings: strictly increasing. */
  predicate StrictlySorted(xs: seq<string>) {
    forall i, j :: 0 <= i < j < |xs| ==> LexLess(xs[i], xs[j])
  }
}
