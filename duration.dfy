/** `extract_minutes` (streamlit_app.py:91-98): turns a travel-time display
    string such as "25 mins" or "1 hour 5 mins" into a number of minutes,
    and answers `None` instead of raising on anything it cannot read. */
module Duration {
  import opened Common
  import opened PyStr

  /** The argument: a Python `str`, or any other value (`None`, a number),
      on which `s.lower()` raises and the bare `except` answers `None`. */
  datatype DurationValue = Text(s: string) | NotText

  /** `s.lower().replace("hr", "hour")` */
  function Normalise(raw: string): string {
    Replace(Lower(raw), "hr", "hour")
  }

  /** `int(t.replace("mins", "").strip())` */
  function ReadMinutes(t: string): Option<int> {
    ParseInt(Strip(Replace(t, "mins", "")))
  }

  /** `int(h.strip()) * 60 + int(m...)` once both pieces were read; `None`
      when either `int` raised. */
  function Combine(h: Option<int>, m: Option<int>): Option<int> {
    if h.Some? && m.Some? then Some(h.value * 60 + m.value) else None
  }

  /** `h, m = parts`: the unpacking raises unless there are exactly two
      pieces; then `int(h.strip())` and `int(m.replace("mins", "").strip())`. */
  function ReadHourPieces(parts: seq<string>): Option<int> {
    if |parts| != 2 then None else Combine(ParseInt(Strip(parts[0])), ReadMinutes(parts[1]))
  }

  /** What the `try` block does with the normalised text. */
  function ParseNormalised(s: string): Option<int> {
    if Contains(s, "hour") then ReadHourPieces(Split(s, "hour")) else ReadMinutes(s)
  }

  function ExtractMinutes(v: DurationValue): (r: Option<int>)
    ensures v.NotText? ==> r == None
  {
    match v
    case NotText => None
    case Text(raw) => ParseNormalised(Normalise(raw))
  }

  /** The two shapes the Distance Matrix API writes, as `str()` prints the
      numbers. */
  function MinutesText(n: nat): string {
    Decimal(n) + " mins"
  }

  function HoursText(h: nat, m: nat): string {
    Decimal(h) + " hour " + Decimal(m) + " mins"
  }

  /** The abbreviated hour the rewrite to "hour" is there for. */
  function HrText(h: nat, m: nat): string {
    Decimal(h) + " hr " + Decimal(m) + " mins"
  }

  // ---------------------------------------------------------------------
  // Character facts about decimal text

  lemma DigitsLack(d: string, c: char)
    requires AllDigits(d) && !IsDigit(c)
    ensures Lacks(d, c)
  {
  }

  lemma DigitsNoUpper(d: string)
    requires AllDigits(d)
    ensures NoUpper(d)
  {
  }

  lemma NoUpperConcat(a: string, b: string)
    requires NoUpper(a) && NoUpper(b)
    ensures NoUpper(a + b)
  {
    forall i | 0 <= i < |a + b|
      ensures !('A' <= (a + b)[i] <= 'Z')
    {
      if i >= |a| {
        assert (a + b)[i] == b[i - |a|];
      }
    }
  }

  lemma LacksConcat(a: string, b: string, c: char)
    requires Lacks(a, c) && Lacks(b, c)
    ensures Lacks(a + b, c)
  {
    forall i | 0 <= i < |a + b|
      ensures (a + b)[i] != c
    {
      if i >= |a| {
        assert (a + b)[i] == b[i - |a|];
      }
    }
  }

  /** Removing "mins" from "<digits> mins" leaves "<digits> ". */
  lemma MinsRemoved(pre: string)
    requires Lacks(pre, 'm')
    ensures Replace(pre + "mins", "mins", "") == pre
  {
    ReplaceSkip(pre, "mins", "mins", "");
    ReplaceHead("mins", "", "");
    assert "mins" + "" == "mins";
    assert pre + "" == pre;
  }

  /** `int(x.strip())` of a number with whitespace around it. */
  lemma ReadsNumber(a: string, n: nat, b: string)
    requires AllSpace(a) && AllSpace(b)
    ensures ParseInt(Strip(a + Decimal(n) + b)) == Some(n)
  {
    var d := Decimal(n);
    StripPadded(a, d, b);
    ParseDecimal([], n, []);
    assert [] + d + [] == d;
  }

  /** Text without 'h' and capitals is left alone by the normalisation and
      has no "hour" in it. */
  lemma PlainText(s: string)
    requires NoUpper(s) && Lacks(s, 'h')
    ensures Normalise(s) == s && !Contains(s, "hour")
  {
    LowerKeeps(s);
    ReplaceLacking(s, "hr", "hour");
    NotContainsLacking(s, "hour");
  }

  /** A single "hour" is neither rewritten nor lost. */
  lemma HourWordKept(pre: string, post: string)
    requires NoUpper(pre) && NoUpper(post) && Lacks(pre, 'h') && Lacks(post, 'h')
    ensures Normalise(pre + "hour" + post) == pre + "hour" + post
  {
    var s := pre + "hour" + post;
    NoUpperConcat(pre, "hour");
    NoUpperConcat(pre + "hour", post);
    LowerKeeps(s);
    var t := "h" + ("our" + post);
    assert s == pre + t;
    ReplaceSkip(pre, t, "hr", "hour");
    assert t[..2] == "ho";
    assert t[1..] == "our" + post;
    LacksConcat("our", post, 'h');
    ReplaceLacking("our" + post, "hr", "hour");
    assert Replace(t, "hr", "hour") == [t[0]] + Replace(t[1..], "hr", "hour");
    assert [t[0]] + ("our" + post) == t;
  }

  /** A single "hr" becomes "hour". */
  lemma HrWordRewritten(pre: string, post: string)
    requires NoUpper(pre) && NoUpper(post) && Lacks(pre, 'h') && Lacks(post, 'h')
    ensures Normalise(pre + "hr" + post) == pre + "hour" + post
  {
    var s := pre + "hr" + post;
    NoUpperConcat(pre, "hr");
    NoUpperConcat(pre + "hr", post);
    LowerKeeps(s);
    assert s == pre + ("hr" + post);
    ReplaceSkip(pre, "hr" + post, "hr", "hour");
    ReplaceHead("hr", post, "hour");
    ReplaceLacking(post, "hr", "hour");
  }

  /** Splitting at a single "hour" gives the text before and after it. */
  lemma HourWordSplit(pre: string, post: string)
    requires Lacks(pre, 'h') && Lacks(post, 'h')
    ensures Contains(pre + "hour" + post, "hour")
    ensures Split(pre + "hour" + post, "hour") == [pre, post]
  {
    var s := pre + "hour" + post;
    assert s == pre + ("hour" + post);
    ContainsHead("hour", post);
    ContainsSkip(pre, "hour" + post, "hour");
    SplitHead("hour", post);
    SplitLacking(post, "hour");
    SplitSkip(pre, "hour" + post, "hour");
    assert pre + "" == pre;
  }

  lemma DecimalPlain(d: string)
    requires AllDigits(d)
    ensures NoUpper(d) && Lacks(d, 'h') && Lacks(d, 'm')
  {
  }

  // ---------------------------------------------------------------------
  // The accepted shapes

  /** "<n> mins" reads as n. */
  lemma MinutesRoundTrip(n: nat)
    ensures ExtractMinutes(Text(MinutesText(n))) == Some(n)
  {
    var d := Decimal(n);
    DecimalPlain(d);
    NoUpperConcat(d, " mins");
    LacksConcat(d, " mins", 'h');
    MinutesTextReads(n);
    PlainReads(d + " mins", n);
  }

  /** Plain text goes straight to the minutes branch. */
  lemma PlainReads(s: string, n: int)
    requires NoUpper(s) && Lacks(s, 'h') && ReadMinutes(s) == Some(n)
    ensures ExtractMinutes(Text(s)) == Some(n)
  {
    PlainText(s);
  }

  lemma MinutesTextReads(n: nat)
    ensures ReadMinutes(Decimal(n) + " mins") == Some(n)
  {
    var d := Decimal(n);
    DecimalPlain(d);
    LacksConcat(d, " ", 'm');
    assert d + " mins" == (d + " ") + "mins";
    MinsRemoved(d + " ");
    HoursPiece(n);
  }

  /** The minutes piece " <m> mins" reads as m. */
  lemma MinutesPiece(m: nat)
    ensures ReadMinutes(" " + Decimal(m) + " mins") == Some(m)
  {
    var dm := Decimal(m);
    DecimalPlain(dm);
    LacksConcat(" ", dm, 'm');
    LacksConcat(" " + dm, " ", 'm');
    assert " " + dm + " mins" == (" " + dm + " ") + "mins";
    MinsRemoved(" " + dm + " ");
    ReadsNumber(" ", m, " ");
  }

  /** The hours piece "<h> " reads as h. */
  lemma HoursPiece(h: nat)
    ensures ParseInt(Strip(Decimal(h) + " ")) == Some(h)
  {
    var d := Decimal(h);
    assert d + " " == [] + d + " ";
    ReadsNumber([], h, " ");
  }

  /** The two plain pieces around "hour" in "<h> hour <m> mins". */
  lemma HoursTextPieces(h: nat, m: nat)
    ensures var pre, post := Decimal(h) + " ", " " + Decimal(m) + " mins";
            && NoUpper(pre) && NoUpper(post) && Lacks(pre, 'h') && Lacks(post, 'h')
            && HoursText(h, m) == pre + "hour" + post
  {
    var dh, dm := Decimal(h), Decimal(m);
    DecimalPlain(dh);
    DecimalPlain(dm);
    NoUpperConcat(dh, " ");
    LacksConcat(dh, " ", 'h');
    NoUpperConcat(" ", dm);
    NoUpperConcat(" " + dm, " mins");
    LacksConcat(" ", dm, 'h');
    LacksConcat(" " + dm, " mins", 'h');
  }

  /** Text with one "hour" between two readable pieces. */
  lemma ReadsHourPieces(s: string, pre: string, post: string, h: int, m: int)
    requires Contains(s, "hour") && Split(s, "hour") == [pre, post]
    requires ParseInt(Strip(pre)) == Some(h)
    requires ReadMinutes(post) == Some(m)
    ensures ParseNormalised(s) == Some(60 * h + m)
  {
    HourFormChosen(s, pre, post);
    CombineRead(ParseInt(Strip(pre)), ReadMinutes(post), h, m);
  }

  lemma HourFormChosen(s: string, pre: string, post: string)
    requires Contains(s, "hour") && Split(s, "hour") == [pre, post]
    ensures ParseNormalised(s) == Combine(ParseInt(Strip(pre)), ReadMinutes(post))
  {
    assert Split(s, "hour")[0] == pre && Split(s, "hour")[1] == post;
  }

  lemma CombineRead(hv: Option<int>, mv: Option<int>, h: int, m: int)
    requires hv == Some(h) && mv == Some(m)
    ensures Combine(hv, mv) == Some(60 * h + m)
  {
  }

  /** "<h> hour <m> mins" reads as 60 * h + m. */
  lemma HoursRoundTrip(h: nat, m: nat)
    ensures ExtractMinutes(Text(HoursText(h, m))) == Some(60 * h + m)
  {
    var pre, post := Decimal(h) + " ", " " + Decimal(m) + " mins";
    HoursTextPieces(h, m);
    HourWordKept(pre, post);
    HourWordSplit(pre, post);
    HoursPiece(h);
    MinutesPiece(m);
    ReadsHourPieces(pre + "hour" + post, pre, post, h, m);
  }

  /** "<h> hr <m> mins" is first rewritten to "<h> hour <m> mins". */
  lemma HrRoundTrip(h: nat, m: nat)
    ensures ExtractMinutes(Text(HrText(h, m))) == Some(60 * h + m)
  {
    var pre, post := Decimal(h) + " ", " " + Decimal(m) + " mins";
    HoursTextPieces(h, m);
    HrTextPieces(h, m);
    HrWordRewritten(pre, post);
    HourWordSplit(pre, post);
    HoursPiece(h);
    MinutesPiece(m);
    ReadsHourPieces(pre + "hour" + post, pre, post, h, m);
  }

  lemma HrTextPieces(h: nat, m: nat)
    ensures HrText(h, m) == (Decimal(h) + " ") + "hr" + (" " + Decimal(m) + " mins")
  {
  }

  // ---------------------------------------------------------------------
  // The shapes it turns away

  /** The minutes piece "s <m> mins" left by a plural "hours" fails. */
  lemma PluralPieceRejected(m: nat)
    ensures ReadMinutes("s " + Decimal(m) + " mins") == None
  {
    var dm := Decimal(m);
    DecimalPlain(dm);
    LacksConcat("s ", dm, 'm');
    LacksConcat("s " + dm, " ", 'm');
    assert "s " + dm + " mins" == ("s " + dm + " ") + "mins";
    MinsRemoved("s " + dm + " ");
    StripPadded([], "s " + dm, " ");
    assert [] + ("s " + dm) + " " == "s " + dm + " ";
    ParseRejects("s " + dm, 0);
  }

  /** The plural the rewrite does not cover. */
  function PluralText(h: nat, m: nat): string {
    Decimal(h) + " hours " + Decimal(m) + " mins"
  }

  /** The two plain pieces around "hour" in "<h> hours <m> mins". */
  lemma PluralTextPieces(h: nat, m: nat)
    ensures var pre, post := Decimal(h) + " ", "s " + Decimal(m) + " mins";
            && NoUpper(pre) && NoUpper(post) && Lacks(pre, 'h') && Lacks(post, 'h')
            && PluralText(h, m) == pre + "hour" + post
  {
    var dh, dm := Decimal(h), Decimal(m);
    DecimalPlain(dh);
    DecimalPlain(dm);
    NoUpperConcat(dh, " ");
    LacksConcat(dh, " ", 'h');
    NoUpperConcat("s ", dm);
    NoUpperConcat("s " + dm, " mins");
    LacksConcat("s ", dm, 'h');
    LacksConcat("s " + dm, " mins", 'h');
  }

  /** "<h> hours <m> mins": the split at "hour" leaves "s <m> mins" as the
      minutes piece, and `int("s <m>")` fails. */
  lemma PluralHoursRejected(h: nat, m: nat)
    ensures ExtractMinutes(Text(PluralText(h, m))) == None
  {
    var pre, post := Decimal(h) + " ", "s " + Decimal(m) + " mins";
    PluralTextPieces(h, m);
    HourWordKept(pre, post);
    HourWordSplit(pre, post);
    PluralPieceRejected(m);
  }

  /** The example from the display strings: "2 hours 5 mins" gives `None`. */
  lemma TwoHoursFiveMinsRejected()
    ensures ExtractMinutes(Text("2 hours 5 mins")) == None
  {
    assert Decimal(2) == "2" && Decimal(5) == "5";
    assert PluralText(2, 5) == "2 hours 5 mins";
    PluralHoursRejected(2, 5);
  }

  /** "<h> hour": the minutes piece is empty, and `int("")` fails. */
  lemma HourWithoutMinutesRejected(h: nat)
    ensures ExtractMinutes(Text(Decimal(h) + " hour")) == None
  {
    var dh := Decimal(h);
    var pre := dh + " ";
    DecimalPlain(dh);
    NoUpperConcat(dh, " ");
    LacksConcat(dh, " ", 'h');
    assert dh + " hour" == pre + "hour" + "";
    HourWordKept(pre, "");
    HourWordSplit(pre, "");
    assert Replace("", "mins", "") == "";
    assert Strip("") == "";
  }

  /** "<n> min" (the singular the API writes for one minute): "mins" does
      not occur, so `int("<n> min")` fails. */
  lemma SingularMinRejected(n: nat)
    ensures ExtractMinutes(Text(Decimal(n) + " min")) == None
  {
    var d := Decimal(n);
    var s := d + " min";
    DecimalPlain(d);
    NoUpperConcat(d, " min");
    LacksConcat(d, " min", 'h');
    PlainText(s);
    LacksConcat(d, " ", 'm');
    assert s == (d + " ") + "min";
    ReplaceSkip(d + " ", "min", "mins", "");
    assert Replace("min", "mins", "") == "min";
    StripUnpadded(s);
    assert !IsDigit(s[|d| + 1]);
    ParseRejects(s, |d| + 1);
  }

  /** Text that holds "hour" twice or more (after the rewrite of "hr")
      splits into three or more pieces, so `h, m = ...` raises. */
  lemma RepeatedHourRejected(raw: string)
    requires |Split(Normalise(raw), "hour")| >= 3
    ensures ExtractMinutes(Text(raw)) == None
  {
    SplitPiecesContains(Normalise(raw), "hour");
  }

  /** An empty string is not read as a duration. */
  lemma EmptyRejected()
    ensures ExtractMinutes(Text("")) == None
  {
    PlainText("");
    assert Replace("", "mins", "") == "";
  }

  /** Upper case makes no difference: the text is lowered first. */
  lemma CaseInsensitive(raw: string)
    ensures ExtractMinutes(Text(raw)) == ExtractMinutes(Text(Lower(raw)))
  {
    LowerIdempotent(raw);
  }
}
