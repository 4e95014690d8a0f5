/** The snapshot name: Go's time.Format with the layout
    "2006-01-02_15-04-05", i.e. year, month, day, hour, minute and second,
    each written by Go's appendInt (a '-' for a negative value, then the
    decimal digits zero-padded to the field's width: 4 for the year, 2 for the
    others). The wall-clock reading is a parameter; the local time zone has
    already been applied to it. */
module Timestamp {
  import opened Paths

  /** The calendar fields of a time.Time in its location. */
  datatype DateTime = DateTime(year: int, month: int, day: int, hour: int, minute: int, second: int)

  predicate IsLeap(year: int)
  {
    year % 4 == 0 && (year % 100 != 0 || year % 400 == 0)
  }

  function DaysIn(month: int, year: int): int
    requires 1 <= month <= 12
  {
    if month == 2 then (if IsLeap(year) then 29 else 28)
    else if month == 4 || month == 6 || month == 9 || month == 11 then 30
    else 31
  }

  /** The fields a time.Time can have (any year, proleptic Gregorian). */
  predicate Valid(t: DateTime)
  {
    && 1 <= t.month <= 12
    && 1 <= t.day <= DaysIn(t.month, t.year)
    && 0 <= t.hour < 24
    && 0 <= t.minute < 60
    && 0 <= t.second < 60
  }

  predicate IsDigit(c: char)
  {
    '0' <= c <= '9'
  }

  predicate AllDigits(s: string)
  {
    forall k :: 0 <= k < |s| ==> IsDigit(s[k])
  }

  function DigitChar(d: nat): (c: char)
    requires d < 10
    ensures IsDigit(c)
  {
    ('0' as int + d) as char
  }

  function DigitValue(c: char): int
  {
    c as int - '0' as int
  }

  /** The decimal digits of n, without leading zeros ("0" for zero). */
  function Digits(n: nat): (r: string)
    ensures |r| > 0 && AllDigits(r)
  {
    if n < 10 then [DigitChar(n)] else Digits(n / 10) + [DigitChar(n % 10)]
  }

  function Zeros(k: nat): (r: string)
    ensures |r| == k && AllDigits(r)
  {
    if k == 0 then [] else Zeros(k - 1) + ['0']
  }

  /** The digits of u, with zeros in front up to `width`. */
  function Padded(u: nat, width: nat): (r: string)
    ensures |r| > 0 && AllDigits(r)
  {
    var ds := Digits(u);
    if |ds| < width then Zeros(width - |ds|) + ds else ds
  }

  /** Go's appendInt(b, x, width) with b empty. */
  function AppendInt(x: int, width: nat): string
  {
    if x < 0 then "-" + Padded(-x, width) else Padded(x, width)
  }

  /** The layout's fixed punctuation around its six fields. */
  function Assemble(y: string, mo: string, d: string, h: string, mi: string, se: string): string
  {
    y + ("-" + (mo + ("-" + (d + ("_" + (h + ("-" + (mi + ("-" + se)))))))))
  }

  /** The pieces time.Format finds in a layout: literal text, or one of the
      standard fields ("2006", "01", "02", "15", "04", "05"). */
  datatype LayoutElem = Lit(c: char) | Year | Month | Day | Hour | Minute | Second

  /** "2006-01-02_15-04-05", cut into its pieces. */
  const Layout: seq<LayoutElem> :=
    [Year, Lit('-'), Month, Lit('-'), Day, Lit('_'), Hour, Lit('-'), Minute, Lit('-'), Second]

  /** One piece of the layout, rendered: the year with at least four digits,
      the other fields with two. */
  function Piece(e: LayoutElem, t: DateTime): string
  {
    match e
    case Lit(c) => [c]
    case Year => AppendInt(t.year, 4)
    case Month => AppendInt(t.month, 2)
    case Day => AppendInt(t.day, 2)
    case Hour => AppendInt(t.hour, 2)
    case Minute => AppendInt(t.minute, 2)
    case Second => AppendInt(t.second, 2)
  }

  /** Time.Format's loop over the layout, appending each piece in turn. */
  function AppendFormat(layout: seq<LayoutElem>, t: DateTime): string
    decreases |layout|
  {
    if |layout| == 0 then "" else Piece(layout[0], t) + AppendFormat(layout[1..], t)
  }

  /** time.Time.Format("2006-01-02_15-04-05"). */
  function Format(t: DateTime): string
  {
    AppendFormat(Layout, t)
  }

  /** The six rendered fields with the layout's punctuation between them. */
  function Assembled(t: DateTime): string
  {
    Assemble(AppendInt(t.year, 4), AppendInt(t.month, 2), AppendInt(t.day, 2),
             AppendInt(t.hour, 2), AppendInt(t.minute, 2), AppendInt(t.second, 2))
  }

  /** The value of a string of decimal digits. */
  function ParseDigits(s: string): int
  {
    if s == [] then 0 else ParseDigits(s[..|s| - 1]) * 10 + DigitValue(s[|s| - 1])
  }

  /** Reads back a 19-character stamp of the form YYYY-MM-DD_HH-MM-SS. */
  function Parse(s: string): (r: Option<DateTime>)
    ensures r.Some? ==> Valid(r.value) && 0 <= r.value.year <= 9999
  {
    if |s| == 19 && s[4] == '-' && s[7] == '-' && s[10] == '_' && s[13] == '-' && s[16] == '-'
       && AllDigits(s[0..4]) && AllDigits(s[5..7]) && AllDigits(s[8..10])
       && AllDigits(s[11..13]) && AllDigits(s[14..16]) && AllDigits(s[17..19])
    then
      ParseDigitsBound(s[0..4]);
      var t := DateTime(ParseDigits(s[0..4]), ParseDigits(s[5..7]), ParseDigits(s[8..10]),
                        ParseDigits(s[11..13]), ParseDigits(s[14..16]), ParseDigits(s[17..19]));
      if Valid(t) then Some(t) else None
    else None
  }

  // ---------------------------------------------------------------- digits

  function Pow10(w: nat): (p: nat)
    ensures p >= 1
  {
    if w == 0 then 1 else 10 * Pow10(w - 1)
  }

  lemma {:induction false} ParseDigitsBound(s: string)
    requires AllDigits(s)
    ensures 0 <= ParseDigits(s) < Pow10(|s|)
  {
    if s != [] {
      ParseDigitsBound(s[..|s| - 1]);
    }
  }

  lemma {:induction false} ParseDigitsOfDigits(n: nat)
    ensures ParseDigits(Digits(n)) == n
  {
    if n >= 10 {
      ParseDigitsOfDigits(n / 10);
      var s := Digits(n / 10) + [DigitChar(n % 10)];
      assert s[..|s| - 1] == Digits(n / 10);
    }
  }

  lemma {:induction false} ParseDigitsZeros(k: nat, s: string)
    ensures ParseDigits(Zeros(k) + s) == ParseDigits(s)
    decreases |s|, k
  {
    if s == [] {
      assert Zeros(k) + s == Zeros(k);
      if k > 0 {
        ParseDigitsZeros(k - 1, []);
        assert Zeros(k - 1) + [] == Zeros(k - 1);
      }
    } else {
      var z := Zeros(k) + s;
      assert z[..|z| - 1] == Zeros(k) + s[..|s| - 1];
      ParseDigitsZeros(k, s[..|s| - 1]);
    }
  }

  lemma DigitsLength(n: nat, w: nat)
    requires 1 <= w && n < Pow10(w)
    ensures |Digits(n)| <= w
  {
    if n >= 10 {
      DigitsLength(n / 10, w - 1);
    }
  }

  /** Exactly w digits, from the most significant. */
  function Fixed(n: nat, w: nat): (r: string)
    ensures |r| == w && AllDigits(r)
  {
    if w == 0 then [] else Fixed(n / 10, w - 1) + [DigitChar(n % 10)]
  }

  lemma {:induction false} FixedOfZero(w: nat)
    ensures Fixed(0, w) == Zeros(w)
  {
    if w > 0 {
      FixedOfZero(w - 1);
    }
  }

  /** For a value that fits, the padded rendering is the fixed-width one. */
  lemma {:induction false} PaddedIsFixed(n: nat, w: nat)
    requires 1 <= w && n < Pow10(w)
    ensures Padded(n, w) == Fixed(n, w)
  {
    DigitsLength(n, w);
    if n < 10 {
      FixedOfZero(w - 1);
      if w == 1 {
        assert Fixed(n, w) == [] + [DigitChar(n)];
      }
    } else {
      PaddedIsFixed(n / 10, w - 1);
      var d := Digits(n / 10);
      var c := [DigitChar(n % 10)];
      if |d| < w - 1 {
        assert Zeros(w - |d + c|) + (d + c) == (Zeros(w - 1 - |d|) + d) + c;
      }
    }
  }

  lemma {:induction false} ParseFixed(n: nat, w: nat)
    requires n < Pow10(w)
    ensures ParseDigits(Fixed(n, w)) == n
  {
    if w > 0 {
      var q, r := n / 10, n % 10;
      assert n == q * 10 + r;
      assert q < Pow10(w - 1);
      ParseFixed(q, w - 1);
      var s := Fixed(n, w);
      assert s == Fixed(q, w - 1) + [DigitChar(r)];
      assert s[..|s| - 1] == Fixed(q, w - 1);
      assert DigitValue(s[|s| - 1]) == r;
    }
  }

  lemma {:induction false} FixedParse(s: string)
    requires AllDigits(s)
    ensures ParseDigits(s) >= 0 && Fixed(ParseDigits(s), |s|) == s
  {
    ParseDigitsBound(s);
    if s != [] {
      var init := s[..|s| - 1];
      FixedParse(init);
      ParseDigitsBound(init);
      var n := ParseDigits(s);
      assert n / 10 == ParseDigits(init);
      assert n % 10 == DigitValue(s[|s| - 1]);
      assert s == init + [s[|s| - 1]];
    }
  }

  /** A zero-padded rendering reads back as the number it renders. */
  lemma PaddedReadsBack(u: nat, width: nat)
    ensures ParseDigits(Padded(u, width)) == u
  {
    ParseDigitsOfDigits(u);
    if |Digits(u)| < width {
      ParseDigitsZeros(width - |Digits(u)|, Digits(u));
    }
  }

  // ---------------------------------------------------------------- properties

  /** Go's appendInt is one-to-one for a given width. */
  lemma AppendIntInjective(x: int, y: int, width: nat)
    requires AppendInt(x, width) == AppendInt(y, width)
    ensures x == y
  {
    var px := Padded(if x < 0 then -x else x, width);
    var py := Padded(if y < 0 then -y else y, width);
    assert IsDigit(px[0]) && IsDigit(py[0]);
    assert (x < 0) == (AppendInt(x, width)[0] == '-');
    assert (y < 0) == (AppendInt(y, width)[0] == '-');
    if x < 0 {
      assert AppendInt(x, width)[1..] == px;
      assert AppendInt(y, width)[1..] == py;
    }
    PaddedReadsBack(if x < 0 then -x else x, width);
    PaddedReadsBack(if y < 0 then -y else y, width);
  }

  /** Where each field sits in an assembled stamp whose five short fields
      have two characters each. */
  lemma AssembleParts(y: string, mo: string, d: string, h: string, mi: string, se: string)
    requires |mo| == 2 && |d| == 2 && |h| == 2 && |mi| == 2 && |se| == 2
    ensures var s := Assemble(y, mo, d, h, mi, se); var n := |y|;
      && |s| == n + 15
      && s[..n] == y && s[n] == '-' && s[n + 1..n + 3] == mo && s[n + 3] == '-' && s[n + 4..n + 6] == d
      && s[n + 6] == '_' && s[n + 7..n + 9] == h && s[n + 9] == '-' && s[n + 10..n + 12] == mi
      && s[n + 12] == '-' && s[n + 13..n + 15] == se
  {
    var s := Assemble(y, mo, d, h, mi, se);
    var n := |y|;
    assert s[..n] == y;
    Peel(s, n, "-", mo + ("-" + (d + ("_" + (h + ("-" + (mi + ("-" + se))))))));
    Peel(s, n + 1, mo, "-" + (d + ("_" + (h + ("-" + (mi + ("-" + se)))))));
    Peel(s, n + 3, "-", d + ("_" + (h + ("-" + (mi + ("-" + se))))));
    Peel(s, n + 4, d, "_" + (h + ("-" + (mi + ("-" + se)))));
    Peel(s, n + 6, "_", h + ("-" + (mi + ("-" + se))));
    Peel(s, n + 7, h, "-" + (mi + ("-" + se)));
    Peel(s, n + 9, "-", mi + ("-" + se));
    Peel(s, n + 10, mi, "-" + se);
    Peel(s, n + 12, "-", se);
    assert s[n..n + 1][0] == s[n];
    assert s[n + 3..n + 4][0] == s[n + 3];
    assert s[n + 6..n + 7][0] == s[n + 6];
    assert s[n + 9..n + 10][0] == s[n + 9];
    assert s[n + 12..n + 13][0] == s[n + 12];
  }

  lemma Peel(s: string, n: nat, x: string, rest: string)
    requires n <= |s| && s[n..] == x + rest
    ensures n + |x| <= |s| && s[n..n + |x|] == x && s[n + |x|..] == rest
  {
    assert s[n..n + |x|] == s[n..][..|x|];
    assert s[n + |x|..] == s[n..][|x|..];
  }

  lemma AppendFormatCons(e: LayoutElem, rest: seq<LayoutElem>, t: DateTime)
    ensures AppendFormat([e] + rest, t) == Piece(e, t) + AppendFormat(rest, t)
  {
    assert ([e] + rest)[1..] == rest;
  }

  /** The stamp is the six fields with the layout's punctuation between
      them. */
  lemma FormatIsAssembled(t: DateTime)
    ensures Format(t) == Assembled(t)
  {
    var l10: seq<LayoutElem> := [Second];
    var l9 := [Lit('-')] + l10;
    var l8 := [Minute] + l9;
    var l7 := [Lit('-')] + l8;
    var l6 := [Hour] + l7;
    var l5 := [Lit('_')] + l6;
    var l4 := [Day] + l5;
    var l3 := [Lit('-')] + l4;
    var l2 := [Month] + l3;
    var l1 := [Lit('-')] + l2;
    var l0 := [Year] + l1;
    assert l0 == Layout;
    AppendFormatCons(Second, [], t);
    assert [Second] + [] == l10;
    assert AppendFormat(l10, t) == AppendInt(t.second, 2);
    AppendFormatCons(Lit('-'), l10, t);
    AppendFormatCons(Minute, l9, t);
    AppendFormatCons(Lit('-'), l8, t);
    AppendFormatCons(Hour, l7, t);
    AppendFormatCons(Lit('_'), l6, t);
    AppendFormatCons(Day, l5, t);
    AppendFormatCons(Lit('-'), l4, t);
    AppendFormatCons(Month, l3, t);
    AppendFormatCons(Lit('-'), l2, t);
    AppendFormatCons(Year, l1, t);
  }

  /** An assembled stamp with two-character short fields determines its
      fields. */
  lemma AssembleInjective(y1: string, mo1: string, d1: string, h1: string, mi1: string, se1: string,
                          y2: string, mo2: string, d2: string, h2: string, mi2: string, se2: string)
    requires |mo1| == 2 && |d1| == 2 && |h1| == 2 && |mi1| == 2 && |se1| == 2
    requires |mo2| == 2 && |d2| == 2 && |h2| == 2 && |mi2| == 2 && |se2| == 2
    requires Assemble(y1, mo1, d1, h1, mi1, se1) == Assemble(y2, mo2, d2, h2, mi2, se2)
    ensures y1 == y2 && mo1 == mo2 && d1 == d2 && h1 == h2 && mi1 == mi2 && se1 == se2
  {
    AssembleParts(y1, mo1, d1, h1, mi1, se1);
    AssembleParts(y2, mo2, d2, h2, mi2, se2);
  }

  /** The fields of a valid time, and a year 0 through 9999, render at
      their fixed widths. */
  lemma FieldsAreFixed(t: DateTime)
    requires Valid(t)
    ensures AppendInt(t.month, 2) == Fixed(t.month, 2) && AppendInt(t.day, 2) == Fixed(t.day, 2)
    ensures AppendInt(t.hour, 2) == Fixed(t.hour, 2) && AppendInt(t.minute, 2) == Fixed(t.minute, 2)
    ensures AppendInt(t.second, 2) == Fixed(t.second, 2)
    ensures 0 <= t.year <= 9999 ==> AppendInt(t.year, 4) == Fixed(t.year, 4)
  {
    PaddedIsFixed(t.month, 2);
    PaddedIsFixed(t.day, 2);
    PaddedIsFixed(t.hour, 2);
    PaddedIsFixed(t.minute, 2);
    PaddedIsFixed(t.second, 2);
    if 0 <= t.year <= 9999 {
      PaddedIsFixed(t.year, 4);
    }
  }

  /** For years 0 through 9999 the stamp is exactly 19 characters of the
      form YYYY-MM-DD_HH-MM-SS, digits where the layout has digits. */
  lemma AssembledShape(t: DateTime)
    requires Valid(t) && 0 <= t.year <= 9999
    ensures var s := Assembled(t);
      && |s| == 19
      && s[4] == '-' && s[7] == '-' && s[10] == '_' && s[13] == '-' && s[16] == '-'
      && s[0..4] == Fixed(t.year, 4) && s[5..7] == Fixed(t.month, 2) && s[8..10] == Fixed(t.day, 2)
      && s[11..13] == Fixed(t.hour, 2) && s[14..16] == Fixed(t.minute, 2) && s[17..19] == Fixed(t.second, 2)
  {
    FieldsAreFixed(t);
    AssembleParts(Fixed(t.year, 4), Fixed(t.month, 2), Fixed(t.day, 2),
                  Fixed(t.hour, 2), Fixed(t.minute, 2), Fixed(t.second, 2));
  }

  /** For years 0 to 9999 a stamp is exactly YYYY-MM-DD_HH-MM-SS: 19
      characters, each field zero-padded to its width. */
  lemma FormatShape(t: DateTime)
    requires Valid(t) && 0 <= t.year <= 9999
    ensures var s := Format(t);
      && |s| == 19
      && s[4] == '-' && s[7] == '-' && s[10] == '_' && s[13] == '-' && s[16] == '-'
      && s[0..4] == Fixed(t.year, 4) && s[5..7] == Fixed(t.month, 2) && s[8..10] == Fixed(t.day, 2)
      && s[11..13] == Fixed(t.hour, 2) && s[14..16] == Fixed(t.minute, 2) && s[17..19] == Fixed(t.second, 2)
  {
    FormatIsAssembled(t);
    AssembledShape(t);
  }

  /** Reading a stamp back gives the time it was made from. */
  lemma ParseFormat(t: DateTime)
    requires Valid(t) && 0 <= t.year <= 9999
    ensures Parse(Format(t)) == Some(t)
  {
    FormatIsAssembled(t);
    AssembledShape(t);
    ParseFields(Assembled(t), t);
  }

  /** A string with the stamp's punctuation whose fields are the zero-padded
      fields of a valid time reads back as that time. */
  lemma ParseFields(s: string, t: DateTime)
    requires Valid(t) && 0 <= t.year <= 9999
    requires |s| == 19 && s[4] == '-' && s[7] == '-' && s[10] == '_' && s[13] == '-' && s[16] == '-'
    requires s[0..4] == Fixed(t.year, 4) && s[5..7] == Fixed(t.month, 2) && s[8..10] == Fixed(t.day, 2)
    requires s[11..13] == Fixed(t.hour, 2) && s[14..16] == Fixed(t.minute, 2) && s[17..19] == Fixed(t.second, 2)
    ensures Parse(s) == Some(t)
  {
    ParseFixed(t.year, 4);
    ParseFixed(t.month, 2);
    ParseFixed(t.day, 2);
    ParseFixed(t.hour, 2);
    ParseFixed(t.minute, 2);
    ParseFixed(t.second, 2);
  }

  /** Every string Parse accepts is the stamp of the time it reads. */
  lemma FormatParse(s: string)
    requires Parse(s).Some?
    ensures Format(Parse(s).value) == s
  {
    FormatIsAssembled(Parse(s).value);
    AssembledParse(s);
  }

  lemma AssembledParse(s: string)
    requires Parse(s).Some?
    ensures Assembled(Parse(s).value) == s
  {
    var t := Parse(s).value;
    FixedParse(s[0..4]);
    FixedParse(s[5..7]);
    FixedParse(s[8..10]);
    FixedParse(s[11..13]);
    FixedParse(s[14..16]);
    FixedParse(s[17..19]);
    FieldsAreFixed(t);
    AssembleSlices(s);
  }

  /** A string with the stamp's punctuation is its six fields reassembled. */
  lemma AssembleSlices(s: string)
    requires |s| == 19 && s[4] == '-' && s[7] == '-' && s[10] == '_' && s[13] == '-' && s[16] == '-'
    ensures Assemble(s[0..4], s[5..7], s[8..10], s[11..13], s[14..16], s[17..19]) == s
  {
    var g := Assemble(s[0..4], s[5..7], s[8..10], s[11..13], s[14..16], s[17..19]);
    AssembleParts(s[0..4], s[5..7], s[8..10], s[11..13], s[14..16], s[17..19]);
    forall k | 0 <= k < 19
      ensures g[k] == s[k]
    {
      if k < 4 { assert g[k] == g[..4][k]; }
      else if 4 < k < 7 { assert g[k] == g[5..7][k - 5]; }
      else if 7 < k < 10 { assert g[k] == g[8..10][k - 8]; }
      else if 10 < k < 13 { assert g[k] == g[11..13][k - 11]; }
      else if 13 < k < 16 { assert g[k] == g[14..16][k - 14]; }
      else if 16 < k { assert g[k] == g[17..19][k - 17]; }
    }
  }

  /** Distinct times (to the second) give distinct stamps, for every year. */
  lemma FormatInjective(t1: DateTime, t2: DateTime)
    requires Valid(t1) && Valid(t2)
    requires Format(t1) == Format(t2)
    ensures t1 == t2
  {
    FormatIsAssembled(t1);
    FormatIsAssembled(t2);
    AssembledInjective(t1, t2);
  }

  lemma AssembledInjective(t1: DateTime, t2: DateTime)
    requires Valid(t1) && Valid(t2)
    requires Assembled(t1) == Assembled(t2)
    ensures t1 == t2
  {
    FieldsAreFixed(t1);
    FieldsAreFixed(t2);
    AssembleInjective(AppendInt(t1.year, 4), Fixed(t1.month, 2), Fixed(t1.day, 2),
                      Fixed(t1.hour, 2), Fixed(t1.minute, 2), Fixed(t1.second, 2),
                      AppendInt(t2.year, 4), Fixed(t2.month, 2), Fixed(t2.day, 2),
                      Fixed(t2.hour, 2), Fixed(t2.minute, 2), Fixed(t2.second, 2));
    AppendIntInjective(t1.year, t2.year, 4);
    ParseFixed(t1.month, 2);
    ParseFixed(t2.month, 2);
    ParseFixed(t1.day, 2);
    ParseFixed(t2.day, 2);
    ParseFixed(t1.hour, 2);
    ParseFixed(t2.hour, 2);
    ParseFixed(t1.minute, 2);
    ParseFixed(t2.minute, 2);
    ParseFixed(t1.second, 2);
    ParseFixed(t2.second, 2);
  }

  /** A stamp is a single path element: it is not empty, "." or "..", and
      has no separator, so Join puts it in the path as one directory. */
  lemma FormatIsName(t: DateTime)
    requires Valid(t)
    ensures Paths.IsName(Format(t))
  {
    FormatIsAssembled(t);
    AssembledIsName(t);
  }

  lemma AssembledIsName(t: DateTime)
    requires Valid(t)
    ensures Paths.IsName(Assembled(t))
  {
    FieldsAreFixed(t);
    var y := AppendInt(t.year, 4);
    assert forall k :: 0 <= k < |y| ==> y[k] == '-' || IsDigit(y[k]);
    AssembleIsName(y, Fixed(t.month, 2), Fixed(t.day, 2), Fixed(t.hour, 2), Fixed(t.minute, 2), Fixed(t.second, 2));
  }

  /** Fields made of digits and '-' assemble into a single path element. */
  lemma AssembleIsName(y: string, mo: string, d: string, h: string, mi: string, se: string)
    requires |mo| == 2 && |d| == 2 && |h| == 2 && |mi| == 2 && |se| == 2
    requires AllDigits(mo) && AllDigits(d) && AllDigits(h) && AllDigits(mi) && AllDigits(se)
    requires forall k :: 0 <= k < |y| ==> y[k] == '-' || IsDigit(y[k])
    ensures Paths.IsName(Assemble(y, mo, d, h, mi, se))
  {
    AssembleParts(y, mo, d, h, mi, se);
    var s := Assemble(y, mo, d, h, mi, se);
    forall k | 0 <= k < |s|
      ensures s[k] != Paths.Sep
    {
      if k < |y| {
        assert s[k] == s[..|y|][k];
      } else {
        AssemblePunctuation(y, mo, d, h, mi, se, k);
      }
    }
  }

  lemma AssemblePunctuation(y: string, mo: string, d: string, h: string, mi: string, se: string, k: nat)
    requires |mo| == 2 && |d| == 2 && |h| == 2 && |mi| == 2 && |se| == 2
    requires AllDigits(mo) && AllDigits(d) && AllDigits(h) && AllDigits(mi) && AllDigits(se)
    requires |y| <= k < |y| + 15
    ensures var s := Assemble(y, mo, d, h, mi, se); s[k] == '-' || s[k] == '_' || IsDigit(s[k])
  {
    AssembleParts(y, mo, d, h, mi, se);
    var s := Assemble(y, mo, d, h, mi, se);
    var n := |y|;
    var j := k - n;
    if 1 <= j < 3 { assert s[k] == s[n + 1..n + 3][j - 1]; }
    else if 4 <= j < 6 { assert s[k] == s[n + 4..n + 6][j - 4]; }
    else if 7 <= j < 9 { assert s[k] == s[n + 7..n + 9][j - 7]; }
    else if 10 <= j < 12 { assert s[k] == s[n + 10..n + 12][j - 10]; }
    else if 13 <= j < 15 { assert s[k] == s[n + 13..n + 15][j - 13]; }
  }
}
