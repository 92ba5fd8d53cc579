/** The Python string operations the dashboard relies on, each written to
    behave as CPython's builtin does on the inputs modelled here:
    `str.isspace`, `str.lower` (ASCII letters), `str.strip`, `str.replace`,
    `sep in s`, `str.split(sep)`, `str.split()`, `str(n)` and `int(s)`. */
module PyStr {
  import opened Common

  /** `c.isspace()`: the characters CPython treats as whitespace, which are
      also the ones `strip()`, `split()` and `int()` skip. */
  predicate IsSpace(c: char) {
    var n := c as int;
    (9 <= n <= 13) || (28 <= n <= 32) || n == 0x85 || n == 0xA0 || n == 0x1680
    || (0x2000 <= n <= 0x200A) || n == 0x2028 || n == 0x2029 || n == 0x202F
    || n == 0x205F || n == 0x3000
  }

  predicate IsDigit(c: char) {
    '0' <= c <= '9'
  }

  predicate AllDigits(s: string) {
    forall i :: 0 <= i < |s| ==> IsDigit(s[i])
  }

  /** No character of `s` is `c`. */
  predicate Lacks(s: string, c: char) {
    forall i :: 0 <= i < |s| ==> s[i] != c
  }

  predicate NoSpace(s: string) {
    forall i :: 0 <= i < |s| ==> !IsSpace(s[i])
  }

  predicate AllSpace(s: string) {
    forall i :: 0 <= i < |s| ==> IsSpace(s[i])
  }

  // ---------------------------------------------------------------------
  // str.lower()

  function LowerChar(c: char): char {
    if 'A' <= c <= 'Z' then (c as int + 32) as char else c
  }

  function Lower(s: string): (r: string) {
    seq(|s|, i requires 0 <= i < |s| => LowerChar(s[i]))
  }

  predicate NoUpper(s: string) {
    forall i :: 0 <= i < |s| ==> !('A' <= s[i] <= 'Z')
  }

  /** Lowering leaves a string without capitals unchanged ... */
  lemma LowerKeeps(s: string)
    requires NoUpper(s)
    ensures Lower(s) == s
  {
  }

  /** ... and produces one, so lowering twice is lowering once. */
  lemma LowerIdempotent(s: string)
    ensures NoUpper(Lower(s))
    ensures Lower(Lower(s)) == Lower(s)
  {
    LowerKeeps(Lower(s));
  }

  // ---------------------------------------------------------------------
  // str.strip()

  /** The longest whitespace prefix removed. */
  function StripLeft(s: string): (r: string)
    ensures |r| <= |s| && r == s[|s| - |r|..]
    ensures forall i :: 0 <= i < |s| - |r| ==> IsSpace(s[i])
    ensures |r| > 0 ==> !IsSpace(r[0])
    decreases |s|
  {
    if |s| > 0 && IsSpace(s[0]) then StripLeft(s[1..]) else s
  }

  /** The longest whitespace suffix removed. */
  function StripRight(s: string): (r: string)
    ensures |r| <= |s| && r == s[..|r|]
    ensures forall i :: |r| <= i < |s| ==> IsSpace(s[i])
    ensures |r| > 0 ==> !IsSpace(r[|r| - 1])
    decreases |s|
  {
    if |s| > 0 && IsSpace(s[|s| - 1]) then StripRight(s[..|s| - 1]) else s
  }

  function Strip(s: string): string {
    StripRight(StripLeft(s))
  }

  lemma {:induction false} StripLeftPadded(a: string, rest: string)
    requires AllSpace(a) && |rest| > 0 && !IsSpace(rest[0])
    ensures StripLeft(a + rest) == rest
    decreases |a|
  {
    if a == [] {
      assert a + rest == rest;
    } else {
      assert (a + rest)[0] == a[0];
      assert (a + rest)[1..] == a[1..] + rest;
      StripLeftPadded(a[1..], rest);
    }
  }

  lemma {:induction false} StripRightPadded(rest: string, b: string)
    requires AllSpace(b) && |rest| > 0 && !IsSpace(rest[|rest| - 1])
    ensures StripRight(rest + b) == rest
    decreases |b|
  {
    if b == [] {
      assert rest + b == rest;
    } else {
      var s := rest + b;
      assert s[|s| - 1] == b[|b| - 1];
      assert s[..|s| - 1] == rest + b[..|b| - 1];
      StripRightPadded(rest, b[..|b| - 1]);
    }
  }

  /** Whitespace around a core that neither starts nor ends with whitespace
      is exactly what `strip()` removes. */
  lemma StripPadded(a: string, core: string, b: string)
    requires AllSpace(a) && AllSpace(b)
    requires |core| > 0 && !IsSpace(core[0]) && !IsSpace(core[|core| - 1])
    ensures Strip(a + core + b) == core
  {
    assert a + core + b == a + (core + b);
    StripLeftPadded(a, core + b);
    StripRightPadded(core, b);
  }

  lemma StripUnpadded(s: string)
    requires |s| > 0 && !IsSpace(s[0]) && !IsSpace(s[|s| - 1])
    ensures Strip(s) == s
  {
    StripPadded([], s, []);
    assert [] + s + [] == s;
  }

  lemma StripAllSpace(s: string)
    requires AllSpace(s)
    ensures Strip(s) == []
  {
  }

  // ---------------------------------------------------------------------
  // `pat in s`

  predicate Contains(s: string, pat: string)
    decreases |s|
  {
    |pat| <= |s| && (s[..|pat|] == pat || (|s| > 0 && Contains(s[1..], pat)))
  }

  /** A prefix without the pattern's first character cannot hold the start of
      an occurrence. */
  lemma {:induction false} ContainsSkip(p: string, q: string, pat: string)
    requires |pat| > 0 && Lacks(p, pat[0])
    ensures Contains(p + q, pat) == Contains(q, pat)
    decreases |p|
  {
    if p != [] {
      var s := p + q;
      assert s[0] != pat[0];
      assert s[1..] == p[1..] + q;
      ContainsSkip(p[1..], q, pat);
      if |pat| <= |s| {
        assert s[..|pat|] != pat by { assert s[..|pat|][0] == s[0]; }
        assert Contains(s, pat) == Contains(s[1..], pat);
      } else {
        assert !Contains(q, pat);
      }
    } else {
      assert p + q == q;
    }
  }

  lemma ContainsHead(pat: string, q: string)
    ensures Contains(pat + q, pat)
  {
    assert (pat + q)[..|pat|] == pat;
  }

  lemma NotContainsLacking(s: string, pat: string)
    requires |pat| > 0 && Lacks(s, pat[0])
    ensures !Contains(s, pat)
  {
    ContainsSkip(s, [], pat);
    assert s + [] == s;
  }

  // ---------------------------------------------------------------------
  // s.replace(pat, rep): left to right, occurrences do not overlap

  function Replace(s: string, pat: string, rep: string): (r: string)
    requires |pat| > 0
    decreases |s|
  {
    if |s| < |pat| then s
    else if s[..|pat|] == pat then rep + Replace(s[|pat|..], pat, rep)
    else [s[0]] + Replace(s[1..], pat, rep)
  }

  /** Text without any occurrence of the pattern comes back unchanged. */
  lemma {:induction false} ReplaceAbsent(s: string, pat: string, rep: string)
    requires |pat| > 0 && !Contains(s, pat)
    ensures Replace(s, pat, rep) == s
    decreases |s|
  {
    if |s| >= |pat| {
      assert s[..|pat|] != pat;
      ReplaceAbsent(s[1..], pat, rep);
      assert [s[0]] + s[1..] == s;
    }
  }

  lemma {:induction false} ReplaceSkip(p: string, q: string, pat: string, rep: string)
    requires |pat| > 0 && Lacks(p, pat[0])
    ensures Replace(p + q, pat, rep) == p + Replace(q, pat, rep)
    decreases |p|
  {
    if p != [] {
      var s := p + q;
      if |s| < |pat| {
        assert |q| < |pat|;
      } else {
        assert s[0] == p[0] != pat[0];
        assert s[..|pat|] != pat by { assert s[..|pat|][0] == s[0]; }
        assert Replace(s, pat, rep) == [s[0]] + Replace(s[1..], pat, rep);
        assert s[1..] == p[1..] + q;
        ReplaceSkip(p[1..], q, pat, rep);
        calc {
          Replace(s, pat, rep);
          [p[0]] + (p[1..] + Replace(q, pat, rep));
          ([p[0]] + p[1..]) + Replace(q, pat, rep);
          { assert [p[0]] + p[1..] == p; }
          p + Replace(q, pat, rep);
        }
      }
    } else {
      assert p + q == q;
    }
  }

  lemma ReplaceHead(pat: string, q: string, rep: string)
    requires |pat| > 0
    ensures Replace(pat + q, pat, rep) == rep + Replace(q, pat, rep)
  {
    var s := pat + q;
    assert s[..|pat|] == pat;
    assert s[|pat|..] == q;
  }

  lemma ReplaceLacking(s: string, pat: string, rep: string)
    requires |pat| > 0 && Lacks(s, pat[0])
    ensures Replace(s, pat, rep) == s
  {
    ReplaceSkip(s, [], pat, rep);
    assert s + [] == s;
  }

  // ---------------------------------------------------------------------
  // s.split(sep) with a non-empty separator

  function Split(s: string, sep: string): (parts: seq<string>)
    requires |sep| > 0
    ensures |parts| >= 1
    decreases |s|
  {
    if |s| < |sep| then [s]
    else if s[..|sep|] == sep then [""] + Split(s[|sep|..], sep)
    else
      var rest := Split(s[1..], sep);
      [[s[0]] + rest[0]] + rest[1..]
  }

  /** `sep.join(parts)`, the inverse of `Split`. */
  function Join(parts: seq<string>, sep: string): string
    requires |parts| >= 1
    decreases |parts|
  {
    if |parts| == 1 then parts[0] else parts[0] + sep + Join(parts[1..], sep)
  }

  /** Splitting loses nothing: joining the pieces gives the text back. */
  lemma {:induction false} SplitJoin(s: string, sep: string)
    requires |sep| > 0
    ensures Join(Split(s, sep), sep) == s
    decreases |s|
  {
    if |s| < |sep| {
    } else if s[..|sep|] == sep {
      SplitJoin(s[|sep|..], sep);
      var rest := Split(s[|sep|..], sep);
      assert ([""] + rest)[1..] == rest;
      assert s == sep + s[|sep|..];
    } else {
      SplitJoin(s[1..], sep);
      var rest := Split(s[1..], sep);
      JoinCons(s[0], rest, sep);
      assert s == [s[0]] + s[1..];
    }
  }

  /** Joining after gluing a character to the first piece. */
  lemma JoinCons(c: char, rest: seq<string>, sep: string)
    requires |rest| >= 1
    ensures Join([[c] + rest[0]] + rest[1..], sep) == [c] + Join(rest, sep)
  {
    var parts := [[c] + rest[0]] + rest[1..];
    if |rest| > 1 {
      assert parts[1..] == rest[1..];
      assert Join(rest, sep) == rest[0] + sep + Join(rest[1..], sep);
    }
  }

  /** There is more than one piece exactly when the separator occurs. */
  lemma {:induction false} SplitPiecesContains(s: string, sep: string)
    requires |sep| > 0
    ensures |Split(s, sep)| >= 2 <==> Contains(s, sep)
    decreases |s|
  {
    if |s| >= |sep| && s[..|sep|] != sep {
      SplitPiecesContains(s[1..], sep);
    } else if |s| >= |sep| {
      assert |[""] + Split(s[|sep|..], sep)| >= 2;
    }
  }

  lemma {:induction false} SplitSkip(p: string, q: string, sep: string)
    requires |sep| > 0 && Lacks(p, sep[0])
    ensures Split(p + q, sep) == [p + Split(q, sep)[0]] + Split(q, sep)[1..]
    decreases |p|
  {
    if p == [] {
      assert p + q == q;
      assert p + Split(q, sep)[0] == Split(q, sep)[0];
      assert [Split(q, sep)[0]] + Split(q, sep)[1..] == Split(q, sep);
    } else {
      var s := p + q;
      if |s| < |sep| {
        assert Split(q, sep) == [q];
      } else {
        assert s[..|sep|][0] != sep[0];
        assert s[1..] == p[1..] + q;
        SplitSkip(p[1..], q, sep);
        assert [p[0]] + (p[1..] + Split(q, sep)[0]) == p + Split(q, sep)[0];
      }
    }
  }

  lemma SplitHead(sep: string, q: string)
    requires |sep| > 0
    ensures Split(sep + q, sep) == [""] + Split(q, sep)
  {
    var s := sep + q;
    assert s[..|sep|] == sep;
    assert s[|sep|..] == q;
  }

  lemma SplitLacking(s: string, sep: string)
    requires |sep| > 0 && Lacks(s, sep[0])
    ensures Split(s, sep) == [s]
  {
    SplitSkip(s, [], sep);
    assert s + [] == s;
  }

  // ---------------------------------------------------------------------
  // s.split() with no argument: runs of whitespace separate words

  /** The longest prefix without whitespace. */
  function Word(t: string): (w: string)
    ensures |w| <= |t| && w == t[..|w|] && NoSpace(w)
    ensures |w| < |t| ==> IsSpace(t[|w|])
    decreases |t|
  {
    if t == [] || IsSpace(t[0]) then [] else [t[0]] + Word(t[1..])
  }

  function SplitWhitespace(s: string): (words: seq<string>)
    decreases |s|
  {
    var t := StripLeft(s);
    if t == [] then []
    else
      WordNonEmpty(t);
      var w := Word(t);
      var rest := SplitWhitespace(t[|w|..]);
      [w] + rest
  }

  /** The first word is non-empty and free of whitespace. */
  lemma FirstWordShape(s: string)
    requires SplitWhitespace(s) != []
    ensures |SplitWhitespace(s)[0]| > 0 && NoSpace(SplitWhitespace(s)[0])
  {
    var t := StripLeft(s);
    WordNonEmpty(t);
    assert SplitWhitespace(s)[0] == Word(t);
  }

  lemma WordNonEmpty(t: string)
    requires |t| > 0 && !IsSpace(t[0])
    ensures |Word(t)| > 0
  {
    assert Word(t) == [t[0]] + Word(t[1..]);
  }

  /** `s.split()` is empty exactly when `s` is blank. */
  lemma SplitWhitespaceEmpty(s: string)
    ensures SplitWhitespace(s) == [] <==> AllSpace(s)
  {
    var t := StripLeft(s);
    if t != [] {
      assert s[|s| - |t|] == t[0];
    }
  }

  lemma {:induction false} WordStops(w: string, c: char, rest: string)
    requires NoSpace(w) && IsSpace(c)
    ensures Word(w + [c] + rest) == w
    decreases |w|
  {
    var t := w + [c] + rest;
    if w == [] {
      assert t[0] == c;
    } else {
      assert t[1..] == w[1..] + [c] + rest;
      WordStops(w[1..], c, rest);
      assert [w[0]] + w[1..] == w;
    }
  }

  lemma WordAll(w: string)
    requires NoSpace(w)
    ensures Word(w) == w
  {
  }

  /** The first word of a text that starts with a whitespace-free word
      followed by whitespace. */
  lemma FirstWord(w: string, c: char, rest: string)
    requires |w| > 0 && NoSpace(w) && IsSpace(c)
    ensures |SplitWhitespace(w + [c] + rest)| > 0
    ensures SplitWhitespace(w + [c] + rest)[0] == w
  {
    var s := w + [c] + rest;
    assert s[0] == w[0];
    assert StripLeft(s) == s;
    WordStops(w, c, rest);
  }

  // ---------------------------------------------------------------------
  // str(n) and int(s)

  function DigitChar(d: nat): char
    requires d < 10
  {
    ('0' as int + d) as char
  }

  function DigitValue(c: char): nat
    requires IsDigit(c)
  {
    c as int - '0' as int
  }

  /** `str(n)` for a non-negative integer: decimal, no leading zeros. */
  function Decimal(n: nat): (d: string)
    ensures |d| > 0 && AllDigits(d)
    ensures |d| > 1 ==> d[0] != '0'
    decreases n
  {
    if n < 10 then [DigitChar(n)] else Decimal(n / 10) + [DigitChar(n % 10)]
  }

  /** The value of a string of decimal digits, most significant first. */
  function DigitsValue(d: string): nat
    requires AllDigits(d)
    decreases |d|
  {
    if d == [] then 0
    else 10 * DigitsValue(d[..|d| - 1]) + DigitValue(d[|d| - 1])
  }

  /** Reading back what `str(n)` wrote gives `n`. */
  lemma {:induction false} DecimalValue(n: nat)
    ensures DigitsValue(Decimal(n)) == n
    decreases n
  {
    var d := Decimal(n);
    if n < 10 {
      assert d[..0] == [];
    } else {
      DecimalValue(n / 10);
      assert d[..|d| - 1] == Decimal(n / 10);
    }
  }

  /** `int(s)` for base 10: surrounding whitespace, an optional sign, then
      one or more ASCII digits; anything else raises `ValueError`, which the
      model reports as `None`. */
  function ParseInt(s: string): (r: Option<int>)
  {
    var t := Strip(s);
    if |t| > 1 && (t[0] == '+' || t[0] == '-') && AllDigits(t[1..]) then
      var v: int := DigitsValue(t[1..]);
      Some(if t[0] == '-' then -v else v)
    else if |t| > 0 && AllDigits(t) then Some(DigitsValue(t))
    else None
  }

  /** `int(str(n)) == n`, with or without whitespace on either side. */
  lemma ParseDecimal(a: string, n: nat, b: string)
    requires AllSpace(a) && AllSpace(b)
    ensures ParseInt(a + Decimal(n) + b) == Some(n)
  {
    var d := Decimal(n);
    StripPadded(a, d, b);
    DecimalValue(n);
  }

  /** `int()` of text that, once stripped, holds something other than a
      sign or a digit fails. */
  lemma ParseRejects(s: string, k: nat)
    requires var t := Strip(s); k < |t| && !IsDigit(t[k]) && (k > 0 || (t[0] != '+' && t[0] != '-'))
    ensures ParseInt(s) == None
  {
    var t := Strip(s);
    if |t| > 1 && (t[0] == '+' || t[0] == '-') {
      assert t[1..][k - 1] == t[k];
    }
  }

  /** Unpadded text that starts with neither a sign nor a digit fails. */
  lemma ParseRejectsHead(s: string)
    requires |s| > 0 && !IsSpace(s[0]) && !IsSpace(s[|s| - 1])
    requires !IsDigit(s[0]) && s[0] != '+' && s[0] != '-'
    ensures ParseInt(s) == None
  {
    StripUnpadded(s);
    ParseRejects(s, 0);
  }

  lemma ParseEmpty()
    ensures ParseInt("") == None
  {
  }
}
