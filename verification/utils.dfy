/** The text and date helpers of utils.py: whitespace clean-up, the two
    strict date layouts, normalisation of the date spellings the press
    release site uses, and the rule-based summary. */
module Utils {
  import opened Text

  // ---------------------------------------------------------------------
  // clean_text (utils.py:4-8)
  // ---------------------------------------------------------------------

  /** Every whitespace character is a plain space and no two are adjacent. */
  predicate Normalized(s: string) {
    && (forall i :: 0 <= i < |s| && IsSpace(s[i]) ==> s[i] == ' ')
    && (forall i :: 0 <= i < |s| - 1 ==> !(IsSpace(s[i]) && IsSpace(s[i + 1])))
  }

  /** Replaces every maximal run of whitespace by one space. */
  function Collapse(s: string): (r: string)
    ensures |r| <= |s|
    ensures (r == []) == (s == [])
    ensures s != [] ==> r[0] == (if IsSpace(s[0]) then ' ' else s[0])
    ensures Normalized(r)
    decreases |s|
  {
    if s == [] then []
    else if IsSpace(s[0]) then " " + Collapse(TrimLeft(s))
    else [s[0]] + Collapse(s[1..])
  }

  /** clean_text: the empty text stays empty; otherwise whitespace runs
      become single spaces and the ends are stripped. */
  function CleanText(text: string): (r: string)
    ensures text == "" ==> r == ""
    ensures NoEdgeSpace(r) && Normalized(r)
  {
    if text == "" then ""
    else
      StripNormalized(Collapse(text));
      Strip(Collapse(text))
  }

  lemma {:induction false} StripNormalized(s: string)
    requires Normalized(s)
    ensures Normalized(Strip(s))
  {
    var lo := |s| - |TrimLeft(s)|;
    var r := Strip(s);
    forall i | 0 <= i < |r| ensures r[i] == s[lo + i] {
      StripAt(s, i);
    }
  }

  /** Collapse leaves alone a string it could have produced. */
  lemma {:induction false} CollapseNoOp(s: string)
    requires Normalized(s)
    ensures Collapse(s) == s
    decreases |s|
  {
    if s != [] {
      assert Normalized(s[1..]);
      if IsSpace(s[0]) {
        assert s[1..] == [] || !IsSpace(s[1..][0]);
        TrimLeftNoOp(s[1..]);
        assert TrimLeft(s) == s[1..];
      }
      CollapseNoOp(s[1..]);
      assert s == [s[0]] + s[1..];
    }
  }

  /** clean_text is idempotent. */
  lemma CleanTextIdempotent(text: string)
    ensures CleanText(CleanText(text)) == CleanText(text)
  {
    var c := CleanText(text);
    if c != "" {
      CollapseNoOp(c);
      StripNoOp(c);
    }
  }

  /** The characters of s other than whitespace, in order. */
  function Visible(s: string): (r: string)
    ensures NoSpace(r)
  {
    if s == [] then [] else (if IsSpace(s[0]) then [] else [s[0]]) + Visible(s[1..])
  }

  lemma {:induction false} VisibleAppend(a: string, b: string)
    ensures Visible(a + b) == Visible(a) + Visible(b)
  {
    if a == [] {
      assert a + b == b;
    } else {
      assert (a + b)[0] == a[0] && (a + b)[1..] == a[1..] + b;
      VisibleAppend(a[1..], b);
    }
  }

  lemma {:induction false} VisibleOfSpaces(s: string)
    requires forall i :: 0 <= i < |s| ==> IsSpace(s[i])
    ensures Visible(s) == []
  {
    if s != [] {
      VisibleOfSpaces(s[1..]);
    }
  }

  /** Dropping leading whitespace keeps the visible characters. */
  lemma {:induction false} VisibleTrimLeft(s: string)
    ensures Visible(TrimLeft(s)) == Visible(s)
  {
    var u := TrimLeft(s);
    var run := s[..|s| - |u|];
    TrimLeftSuffix(s);
    assert s == run + u;
    VisibleAppend(run, u);
    VisibleOfSpaces(run);
  }

  /** Dropping trailing whitespace keeps the visible characters. */
  lemma {:induction false} VisibleTrimRight(s: string)
    ensures Visible(TrimRight(s)) == Visible(s)
  {
    var u := TrimRight(s);
    TrimRightPrefixOf(s);
    var run := s[|u|..];
    assert s == u + run;
    VisibleAppend(u, run);
    VisibleOfSpaces(run);
  }

  /** A whitespace run and the single space it becomes have no visible characters. */
  lemma {:induction false} VisibleCollapseRun(s: string)
    requires s != [] && IsSpace(s[0])
    ensures Visible(Collapse(s)) == Visible(Collapse(TrimLeft(s)))
  {
    var u := TrimLeft(s);
    assert Collapse(s) == " " + Collapse(u);
    VisibleAppend(" ", Collapse(u));
    assert Visible(" ") == [] by { assert " "[1..] == []; }
  }

  /** A visible character is kept by Collapse and by Visible alike. */
  lemma {:induction false} VisibleCollapseChar(s: string)
    requires s != [] && !IsSpace(s[0])
    ensures Visible(Collapse(s)) == [s[0]] + Visible(Collapse(s[1..]))
    ensures Visible(s) == [s[0]] + Visible(s[1..])
  {
    assert Collapse(s) == [s[0]] + Collapse(s[1..]);
    VisibleAppend([s[0]], Collapse(s[1..]));
    assert Visible([s[0]]) == [s[0]] by { assert [s[0]][1..] == []; }
  }

  lemma {:induction false} VisibleCollapse(s: string)
    ensures Visible(Collapse(s)) == Visible(s)
    decreases |s|
  {
    if s != [] {
      if IsSpace(s[0]) {
        VisibleCollapseRun(s);
        VisibleTrimLeft(s);
        VisibleCollapse(TrimLeft(s));
      } else {
        VisibleCollapseChar(s);
        VisibleCollapse(s[1..]);
      }
    }
  }

  lemma {:induction false} VisibleStrip(s: string)
    ensures Visible(Strip(s)) == Visible(s)
  {
    VisibleTrimLeft(s);
    VisibleTrimRight(TrimLeft(s));
  }

  /** clean_text changes only whitespace: the visible characters of the
      text survive, all of them and in order. */
  lemma CleanTextKeepsVisible(text: string)
    ensures Visible(CleanText(text)) == Visible(text)
  {
    if text != "" {
      VisibleStrip(Collapse(text));
      VisibleCollapse(text);
    }
  }

  /** clean_text keeps the words: str.split() of the result is str.split()
      of the text. With NoEdgeSpace and Normalized this makes the result
      the words of the text joined by single spaces. */
  lemma CleanTextFields(text: string)
    ensures Fields(CleanText(text)) == Fields(text)
  {
    if text != "" {
      FieldsStrip(Collapse(text));
      FieldsCollapse(text);
    }
  }

  /** A word followed by whitespace or nothing is the first field. */
  lemma {:induction false} FieldsWordRest(w: string, rest: string)
    requires w != [] && NoSpace(w) && (rest == [] || IsSpace(rest[0]))
    ensures Fields(w + rest) == [w] + Fields(rest)
  {
    var s := w + rest;
    assert s[0] == w[0];
    TrimLeftNoOp(s);
    WordOf(w, rest);
    assert s[|w|..] == rest;
    FieldsUnfold(s);
  }

  /** Text of whitespace only has no field. */
  lemma {:induction false} FieldsSpaces(s: string)
    requires forall i :: 0 <= i < |s| ==> IsSpace(s[i])
    ensures Fields(s) == []
  {
    TrimLeftSuffix(s);
    FieldsUnfold(s);
  }

  /** Leading whitespace does not change the fields. */
  lemma {:induction false} FieldsTrimLeft(s: string)
    ensures Fields(TrimLeft(s)) == Fields(s)
  {
    TrimLeftNoOp(TrimLeft(s));
    FieldsUnfold(TrimLeft(s));
    FieldsUnfold(s);
  }

  /** Collapse keeps a leading word and goes on after it. */
  lemma {:induction false} CollapseWord(s: string)
    requires s != [] && !IsSpace(s[0])
    ensures Collapse(s) == Word(s) + Collapse(s[|Word(s)|..])
    decreases |s|
  {
    var t := s[1..];
    assert Collapse(s) == [s[0]] + Collapse(t);
    if t == [] || IsSpace(t[0]) {
      assert Word(s) == [s[0]];
      assert s[1..] == t;
    } else {
      CollapseWord(t);
      assert Word(s) == [s[0]] + Word(t);
      assert s[|Word(s)|..] == t[|Word(t)|..];
    }
  }

  /** Collapsing whitespace runs keeps the fields. */
  lemma {:induction false} FieldsCollapse(s: string)
    ensures Fields(Collapse(s)) == Fields(s)
    decreases |s|
  {
    if s == [] {
    } else if IsSpace(s[0]) {
      var u := TrimLeft(s);
      assert u == TrimLeft(s[1..]);
      var c := Collapse(u);
      assert Collapse(s) == " " + c;
      if c == [] {
        FieldsSpaces(" ");
        assert " " + c == " ";
        FieldsSpaces(u);
      } else {
        FieldsLead(c);
      }
      FieldsCollapse(u);
      FieldsTrimLeft(s);
    } else {
      var w := Word(s);
      var r := s[|w|..];
      CollapseWord(s);
      assert s == w + r;
      FieldsWordRest(w, r);
      FieldsWordRest(w, Collapse(r));
      FieldsCollapse(r);
    }
  }

  /** TrimLeft of text with something visible ignores what follows. */
  lemma {:induction false} TrimLeftAppend(a: string, b: string)
    requires TrimLeft(a) != []
    ensures TrimLeft(a + b) == TrimLeft(a) + b
    decreases |a|
  {
    if IsSpace(a[0]) {
      assert (a + b)[1..] == a[1..] + b;
      TrimLeftAppend(a[1..], b);
    }
  }

  /** Trailing whitespace does not change the fields. */
  lemma {:induction false} FieldsTrailing(x: string, sp: string)
    requires forall i :: 0 <= i < |sp| ==> IsSpace(sp[i])
    ensures Fields(x + sp) == Fields(x)
    decreases |x|
  {
    var u := TrimLeft(x);
    if u == [] {
      FieldsSpaces(x + sp);
      FieldsSpaces(x);
    } else {
      TrimLeftAppend(x, sp);
      var w := Word(u);
      var rest := u[|w|..];
      assert u == w + rest;
      assert u + sp == w + (rest + sp);
      FieldsWordRest(w, rest + sp);
      FieldsWordRest(w, rest);
      FieldsTrailing(rest, sp);
      FieldsTrimLeft(x + sp);
      FieldsTrimLeft(x);
    }
  }

  /** Stripping keeps the fields. */
  lemma {:induction false} FieldsStrip(s: string)
    ensures Fields(Strip(s)) == Fields(s)
  {
    var u := TrimLeft(s);
    var t := TrimRight(u);
    TrimRightPrefixOf(u);
    assert u == t + u[|t|..];
    FieldsTrailing(t, u[|t|..]);
    FieldsTrimLeft(s);
  }

  // ---------------------------------------------------------------------
  // parse_date (utils.py:10-28): datetime.strptime with "%Y.%m.%d", then
  // "%Y-%m-%d"
  // ---------------------------------------------------------------------

  datatype Date = Date(year: int, month: int, day: int)

  predicate IsLeap(y: int) {
    y % 4 == 0 && (y % 100 != 0 || y % 400 == 0)
  }

  function DaysInMonth(y: int, m: int): int {
    if m == 2 then (if IsLeap(y) then 29 else 28)
    else if m == 4 || m == 6 || m == 9 || m == 11 then 30
    else 31
  }

  /** What the datetime constructor accepts (strptime's last check). */
  predicate ValidDate(d: Date) {
    1 <= d.year <= 9999 && 1 <= d.month <= 12 && 1 <= d.day <= DaysInMonth(d.year, d.month)
  }

  /** The text strptime's %m directive accepts: 1[0-2]|0[1-9]|[1-9]. */
  predicate MonthToken(m: string) {
    || (|m| == 1 && '1' <= m[0] <= '9')
    || (|m| == 2 && m[0] == '0' && '1' <= m[1] <= '9')
    || (|m| == 2 && m[0] == '1' && '0' <= m[1] <= '2')
  }

  /** The text strptime's %d directive accepts:
      3[01]|[12]\d|0[1-9]|[1-9]| [1-9] (note the space-padded form). */
  predicate DayToken(d: string) {
    || (|d| == 1 && '1' <= d[0] <= '9')
    || (|d| == 2 && d[0] == '3' && (d[1] == '0' || d[1] == '1'))
    || (|d| == 2 && (d[0] == '1' || d[0] == '2') && IsDigit(d[1]))
    || (|d| == 2 && (d[0] == '0' || d[0] == ' ') && '1' <= d[1] <= '9')
  }

  /** int() of a month or day token; int() ignores the padding space. */
  function TokenValue(tok: string): nat
    requires MonthToken(tok) || DayToken(tok)
  {
    if tok[0] == ' ' then DigitsValue(tok[1..]) else DigitsValue(tok)
  }

  /** t fits the layout "%Y<sep>%m<sep>%d" with the second separator at i. */
  predicate LayoutAt(t: string, sep: char, i: int) {
    && 5 <= i < |t| && AllDigits(t[..4]) && t[4] == sep && t[i] == sep
    && MonthToken(t[5..i]) && DayToken(t[i + 1..])
  }

  function DateAt(t: string, i: int): Date
    requires 5 <= i < |t| && AllDigits(t[..4])
    requires MonthToken(t[5..i]) && DayToken(t[i + 1..])
  {
    Date(DigitsValue(t[..4]), TokenValue(t[5..i]), TokenValue(t[i + 1..]))
  }

  /** One strptime attempt with the layout "%Y<sep>%m<sep>%d": the match
      must cover the whole text and the date must exist. */
  function ParseLayout(t: string, sep: char): Option<Date> {
    if |t| < 5 || !AllDigits(t[..4]) || t[4] != sep then None
    else
      match IndexOf(t[5..], sep)
      case None => None
      case Some(k) =>
        var i := 5 + k;
        if MonthToken(t[5..i]) && DayToken(t[i + 1..]) && ValidDate(DateAt(t, i)) then
          Some(DateAt(t, i))
        else None
  }

  /** parse_date: None for the empty text; otherwise the stripped text is
      tried with "%Y.%m.%d" and then with "%Y-%m-%d". */
  function ParseDate(s: string): Option<Date> {
    if s == "" then None
    else
      var t := Strip(s);
      var first := ParseLayout(t, '.');
      if first.Some? then first else ParseLayout(t, '-')
  }

  /** A month token holds no separator, so the second separator of a fitting
      text is the first one after the fifth character. */
  lemma {:induction false} LayoutSeparator(t: string, sep: char, i: int)
    requires sep == '.' || sep == '-'
    requires LayoutAt(t, sep, i)
    ensures IndexOf(t[5..], sep) == Some(i - 5)
  {
    var m := t[5..i];
    assert t[5..][..i - 5] == m;
    assert t[5..][i - 5] == sep;
    assert sep !in m by {
      forall j | 0 <= j < |m| ensures m[j] != sep { assert IsDigit(m[j]); }
    }
    var k := IndexOf(t[5..], sep);
    assert k.Some?;
    var u := t[5..];
    assert forall j :: 0 <= j < i - 5 ==> u[j] != sep by {
      forall j | 0 <= j < i - 5 ensures u[j] != sep { assert u[j] == m[j]; }
    }
    assert forall j :: 0 <= j < k.value ==> u[j] != sep by {
      forall j | 0 <= j < k.value ensures u[j] != sep { assert u[j] == u[..k.value][j]; }
    }
    assert u[k.value] == sep && u[i - 5] == sep;
  }

  lemma {:induction false} ParseLayoutSound(t: string, sep: char, d: Date)
    requires ParseLayout(t, sep) == Some(d)
    ensures LayoutAt(t, sep, 5 + IndexOf(t[5..], sep).value) && ValidDate(d)
    ensures d == DateAt(t, 5 + IndexOf(t[5..], sep).value)
  {
  }

  lemma {:induction false} ParseLayoutComplete(t: string, sep: char, d: Date, i: int)
    requires sep == '.' || sep == '-'
    requires LayoutAt(t, sep, i) && d == DateAt(t, i) && ValidDate(d)
    ensures ParseLayout(t, sep) == Some(d)
  {
    LayoutSeparator(t, sep, i);
  }

  /** ParseLayout succeeds exactly when the text fits the layout and the
      date exists. */
  lemma {:induction false} ParseLayoutSpec(t: string, sep: char, d: Date)
    requires sep == '.' || sep == '-'
    ensures ParseLayout(t, sep) == Some(d) <==>
              exists i :: LayoutAt(t, sep, i) && d == DateAt(t, i) && ValidDate(d)
  {
    if ParseLayout(t, sep) == Some(d) {
      ParseLayoutSound(t, sep, d);
    }
    if exists i :: LayoutAt(t, sep, i) && d == DateAt(t, i) && ValidDate(d) {
      var i :| LayoutAt(t, sep, i) && d == DateAt(t, i) && ValidDate(d);
      ParseLayoutComplete(t, sep, d, i);
    }
  }

  /** parse_date succeeds exactly when the stripped text fits one of the two
      layouts with a date that exists; since the layouts differ at the fifth
      character at most one of them can fit. */
  lemma ParseDateSpec(s: string, d: Date)
    ensures ParseDate(s) == Some(d) <==>
              s != "" && ValidDate(d) &&
              ((exists i :: LayoutAt(Strip(s), '.', i) && d == DateAt(Strip(s), i)) ||
               (exists i :: LayoutAt(Strip(s), '-', i) && d == DateAt(Strip(s), i)))
  {
    if s != "" {
      var t := Strip(s);
      ParseLayoutSpec(t, '.', d);
      ParseLayoutSpec(t, '-', d);
      if ParseLayout(t, '.').Some? {
        var d' := ParseLayout(t, '.').value;
        ParseLayoutSpec(t, '.', d');
        assert t[4] == '.';
        assert !exists i :: LayoutAt(t, '-', i);
      }
    }
  }

  /** strftime("%Y-%m-%d") of a date. */
  function IsoFormat(d: Date): (r: string)
    requires ValidDate(d)
  {
    Digits(d.year, 4) + "-" + Digits(d.month, 2) + "-" + Digits(d.day, 2)
  }

  lemma {:induction false} TwoDigitValue(n: nat)
    requires n < 100
    ensures DigitsValue(Digits(n, 2)) == n
  {
    DigitsRoundTrip(n, 2);
  }

  /** A two-digit month is a %m token that reads back as the month. */
  lemma {:induction false} MonthTokenDigits(m: int)
    requires 1 <= m <= 12
    ensures MonthToken(Digits(m, 2)) && TokenValue(Digits(m, 2)) == m
  {
    var t := Digits(m, 2);
    TwoDigitValue(m);
    assert t[1] == (('0' as int) + m % 10) as char;
    assert t == Digits(m / 10, 1) + [t[1]];
    assert t[0] == (('0' as int) + (m / 10) % 10) as char;
  }

  /** A two-digit day is a %d token that reads back as the day. */
  lemma {:induction false} DayTokenDigits(d: int)
    requires 1 <= d <= 31
    ensures DayToken(Digits(d, 2)) && TokenValue(Digits(d, 2)) == d
  {
    var t := Digits(d, 2);
    TwoDigitValue(d);
    assert t[1] == (('0' as int) + d % 10) as char;
    assert t == Digits(d / 10, 1) + [t[1]];
    assert t[0] == (('0' as int) + (d / 10) % 10) as char;
  }

  /** The strftime text of a date fits "%Y-%m-%d" with its second '-' at 7. */
  lemma {:induction false} IsoLayout(d: Date)
    requires ValidDate(d)
    ensures LayoutAt(IsoFormat(d), '-', 7) && DateAt(IsoFormat(d), 7) == d
  {
    var y, m, dd := Digits(d.year, 4), Digits(d.month, 2), Digits(d.day, 2);
    var t := IsoFormat(d);
    assert t == y + "-" + m + "-" + dd;
    assert t[..4] == y && t[5..7] == m && t[8..] == dd && t[4] == '-' && t[7] == '-';
    assert Pow10(4) == 10000;
    DigitsRoundTrip(d.year, 4);
    MonthTokenDigits(d.month);
    DayTokenDigits(d.day);
  }

  /** The strftime text of a date has no surrounding whitespace. */
  lemma {:induction false} IsoEdges(d: Date)
    requires ValidDate(d)
    ensures NoEdgeSpace(IsoFormat(d))
  {
    var t := IsoFormat(d);
    var y, m, dd := Digits(d.year, 4), Digits(d.month, 2), Digits(d.day, 2);
    assert t == y + "-" + m + "-" + dd;
    assert t[0] == y[0] && t[|t| - 1] == dd[1];
  }

  /** A text whose fifth character is '-' does not fit the first layout. */
  lemma {:induction false} NotDotLayout(t: string)
    requires |t| > 4 && t[4] == '-'
    ensures ParseLayout(t, '.') == None
  {
  }

  /** parse_date falls through to the second layout when the first fails. */
  lemma {:induction false} ParseSecondLayout(t: string, d: Date)
    requires t != "" && NoEdgeSpace(t)
    requires ParseLayout(t, '.') == None && ParseLayout(t, '-') == Some(d)
    ensures ParseDate(t) == Some(d)
  {
    StripNoOp(t);
  }

  /** What it takes for parse_date to read t as d with the second layout. */
  predicate DashParsable(t: string, d: Date) {
    && LayoutAt(t, '-', 7) && NoEdgeSpace(t) && d == DateAt(t, 7) && ValidDate(d)
  }

  /** The strftime text of a date has no surrounding whitespace and fits the
      second layout. */
  lemma {:induction false} IsoParsable(d: Date)
    requires ValidDate(d)
    ensures DashParsable(IsoFormat(d), d)
  {
    IsoLayout(d);
    IsoEdges(d);
  }

  /** Such a text is read by the second layout alone. */
  lemma {:induction false} DashLayouts(t: string, d: Date)
    requires DashParsable(t, d)
    ensures ParseLayout(t, '.') == None && ParseLayout(t, '-') == Some(d)
  {
    NotDotLayout(t);
    ParseLayoutComplete(t, '-', d, 7);
  }

  /** A text that fits only the second layout is read by it. */
  lemma {:induction false} ParseDashOnly(t: string, d: Date)
    requires DashParsable(t, d)
    ensures ParseDate(t) == Some(d)
  {
    DashLayouts(t, d);
    ParseSecondLayout(t, d);
  }

  /** parse_date reads back every date that strftime("%Y-%m-%d") writes. */
  lemma {:induction false} ParseIsoRoundTrip(d: Date)
    requires ValidDate(d)
    ensures ParseDate(IsoFormat(d)) == Some(d)
  {
    IsoParsable(d);
    ParseDashOnly(IsoFormat(d), d);
  }

  // ---------------------------------------------------------------------
  // normalize_date (utils.py:30-75)
  // ---------------------------------------------------------------------

  /** str.rstrip('.') */
  function TrimRightDots(s: string): (r: string)
    ensures StartsWith(s, r) && (r == [] || r[|r| - 1] != '.')
    ensures forall i :: |r| <= i < |s| ==> s[i] == '.'
  {
    if s != [] && s[|s| - 1] == '.' then TrimRightDots(s[..|s| - 1]) else s
  }

  /** Four digits, '-', two digits, '-', two digits. */
  predicate IsoShape(t: string) {
    && |t| == 10 && AllDigits(t[..4]) && t[4] == '-'
    && AllDigits(t[5..7]) && t[7] == '-' && AllDigits(t[8..])
  }

  /** re.match(r'^\d{4}-\d{2}-\d{2}$', t): '$' also matches just before a
      final newline. */
  predicate IsoPattern(t: string) {
    IsoShape(t) || (|t| == 11 && IsoShape(t[..10]) && t[10] == '\n')
  }

  /** The longest prefix of s without whitespace. */
  function Word(s: string): (r: string)
    ensures StartsWith(s, r) && NoSpace(r)
    ensures |r| < |s| ==> IsSpace(s[|r|])
    ensures s != [] && !IsSpace(s[0]) ==> r != []
  {
    if s == [] || IsSpace(s[0]) then []
    else
      var w := Word(s[1..]);
      assert s[..1 + |w|] == [s[0]] + s[1..][..|w|];
      [s[0]] + w
  }

  /** str.split() with no argument: the maximal runs of non-whitespace. */
  function Fields(s: string): seq<string>
    decreases |s|
  {
    var u := TrimLeft(s);
    if u == [] then [] else var w := Word(u); [w] + Fields(u[|w|..])
  }

  /** The longest prefix of s made of digits. */
  function DigitPrefix(s: string): (r: string)
    ensures StartsWith(s, r) && AllDigits(r)
    ensures |r| < |s| ==> !IsDigit(s[|r|])
    ensures s != [] && IsDigit(s[0]) ==> r != []
  {
    if s == [] || !IsDigit(s[0]) then []
    else
      var w := DigitPrefix(s[1..]);
      assert s[..1 + |w|] == [s[0]] + s[1..][..|w|];
      [s[0]] + w
  }

  /** re.findall(r'\d+', s): the maximal runs of digits, left to right. */
  function DigitRuns(s: string): (r: seq<string>)
    decreases |s|
  {
    if s == [] then []
    else if IsDigit(s[0]) then var w := DigitPrefix(s); [w] + DigitRuns(s[|w|..])
    else DigitRuns(s[1..])
  }

  /** The month table of normalize_date; an unknown name gives "01". */
  function MonthNumber(name: string): string {
    if name == "Jan" then "01" else if name == "Feb" then "02"
    else if name == "Mar" then "03" else if name == "Apr" then "04"
    else if name == "May" then "05" else if name == "Jun" then "06"
    else if name == "Jul" then "07" else if name == "Aug" then "08"
    else if name == "Sep" then "09" else if name == "Oct" then "10"
    else if name == "Nov" then "11" else if name == "Dec" then "12"
    else "01"
  }

  function MonthAbbr(m: int): string
    requires 1 <= m <= 12
  {
    ["Jan", "Feb", "Mar", "Apr", "May", "Jun", "Jul", "Aug", "Sep", "Oct", "Nov", "Dec"][m - 1]
  }

  /** normalize_date: the empty text stays empty; the text is stripped of
      whitespace and then of trailing dots; an ISO date is kept; a text with
      a comma and exactly three words is read as "Mon D, YYYY"; a text with
      a dot and at least three digit runs is read as year, month, day;
      anything else is returned as cleaned. */
  function NormalizeDate(s: string): (r: string)
    ensures s == "" ==> r == ""
  {
    if s == "" then ""
    else
      var t := TrimRightDots(Strip(s));
      if IsoPattern(t) then t
      else if ',' in t && |Fields(RemoveChar(t, ','))| == 3 then
        var p := Fields(RemoveChar(t, ','));
        p[2] + "-" + MonthNumber(p[0]) + "-" + Zfill(p[1], 2)
      else if '.' in t && |DigitRuns(t)| >= 3 then
        var n := DigitRuns(t);
        n[0] + "-" + Zfill(n[1], 2) + "-" + Zfill(n[2], 2)
      else t
  }

  /** An ISO date is left unchanged, so an ISO result is a fixed point. */
  lemma NormalizeIsoFixed(s: string)
    requires IsoShape(s)
    ensures NormalizeDate(s) == s
  {
    assert IsDigit(s[0]) && IsDigit(s[9]) by { assert s[9] == s[8..][1]; }
    StripNoOp(s);
  }

  lemma NormalizeIdempotentOnIso(s: string)
    requires IsoShape(NormalizeDate(s))
    ensures NormalizeDate(NormalizeDate(s)) == NormalizeDate(s)
  {
    NormalizeIsoFixed(NormalizeDate(s));
  }

  // The date spellings found on the site, written out for a date.

  /** "Feb 6, 2026" */
  function EnglishSpelling(d: Date): string
    requires ValidDate(d)
  {
    MonthAbbr(d.month) + " " + NatStr(d.day) + ", " + Digits(d.year, 4)
  }

  /** "2026. 2. 6" */
  function SpacedDotSpelling(d: Date): string
    requires ValidDate(d)
  {
    Digits(d.year, 4) + ". " + NatStr(d.month) + ". " + NatStr(d.day)
  }

  /** "2026.02.06" */
  function DotSpelling(d: Date): string
    requires ValidDate(d)
  {
    Digits(d.year, 4) + "." + Digits(d.month, 2) + "." + Digits(d.day, 2)
  }

  lemma {:induction false} ZfillNatStr(n: nat)
    requires 1 <= n < 100
    ensures Zfill(NatStr(n), 2) == Digits(n, 2)
  {
  }

  /** str.replace(c, '') for a single character c. */
  function RemoveChar(s: string, c: char): (r: string)
    ensures c !in r
  {
    if s == [] then [] else (if s[0] == c then [] else [s[0]]) + RemoveChar(s[1..], c)
  }

  lemma {:induction false} RemoveCharAppend(a: string, b: string, c: char)
    ensures RemoveChar(a + b, c) == RemoveChar(a, c) + RemoveChar(b, c)
  {
    if a == [] {
      assert a + b == b;
    } else {
      assert (a + b)[0] == a[0] && (a + b)[1..] == a[1..] + b;
      RemoveCharAppend(a[1..], b, c);
    }
  }

  lemma {:induction false} RemoveCharNoOp(a: string, c: char)
    requires c !in a
    ensures RemoveChar(a, c) == a
  {
    if a != [] {
      RemoveCharNoOp(a[1..], c);
    }
  }

  lemma {:induction false} FieldsUnfold(s: string)
    ensures Fields(s) == (var u := TrimLeft(s);
      if u == [] then [] else [Word(u)] + Fields(u[|Word(u)|..]))
  {
  }

  /** The first word of a word followed by whitespace (or nothing). */
  lemma {:induction false} WordOf(w: string, rest: string)
    requires NoSpace(w) && (rest == [] || IsSpace(rest[0]))
    ensures Word(w + rest) == w
  {
    if w == [] {
      assert w + rest == rest;
    } else {
      assert (w + rest)[0] == w[0] && (w + rest)[1..] == w[1..] + rest;
      WordOf(w[1..], rest);
    }
  }

  lemma {:induction false} FieldsOneWord(w: string)
    requires w != [] && NoSpace(w)
    ensures Fields(w) == [w]
  {
    assert Fields([]) == [];
    FieldsWordRest(w, []);
    assert w + [] == w;
  }

  lemma {:induction false} FieldsLead(w: string)
    requires w != [] && !IsSpace(w[0])
    ensures Fields(" " + w) == Fields(w)
  {
    assert (" " + w)[1..] == w;
    TrimLeftNoOp(w);
    assert TrimLeft(" " + w) == TrimLeft(w);
    FieldsUnfold(" " + w);
    FieldsUnfold(w);
  }

  /** Two decimal digits of a number below 100. */
  lemma {:induction false} TwoDigits(n: nat)
    requires n < 100
    ensures Digits(n, 2) == [('0' as int + n / 10) as char, ('0' as int + n % 10) as char]
  {
    assert Digits(n, 2) == Digits(n / 10, 1) + [('0' as int + n % 10) as char];
    assert Digits(n / 10, 1) == Digits(n / 100, 0) + [('0' as int + (n / 10) % 10) as char];
  }

  lemma {:induction false} MonthNamesFirstHalf(m: int)
    requires 1 <= m <= 6
    ensures MonthNumber(MonthAbbr(m)) == Digits(m, 2)
  {
    TwoDigits(m);
    if m == 1 {
      assert MonthAbbr(m) == "Jan";
    } else if m == 2 {
      assert MonthAbbr(m) == "Feb";
    } else if m == 3 {
      assert MonthAbbr(m) == "Mar";
    } else if m == 4 {
      assert MonthAbbr(m) == "Apr";
    } else if m == 5 {
      assert MonthAbbr(m) == "May";
    } else {
      assert MonthAbbr(m) == "Jun";
    }
  }

  lemma {:induction false} MonthNamesSecondHalf(m: int)
    requires 7 <= m <= 12
    ensures MonthNumber(MonthAbbr(m)) == Digits(m, 2)
  {
    TwoDigits(m);
    if m == 7 {
      assert MonthAbbr(m) == "Jul";
    } else if m == 8 {
      assert MonthAbbr(m) == "Aug";
    } else if m == 9 {
      assert MonthAbbr(m) == "Sep";
    } else if m == 10 {
      assert MonthAbbr(m) == "Oct";
    } else if m == 11 {
      assert MonthAbbr(m) == "Nov";
    } else {
      assert MonthAbbr(m) == "Dec";
    }
  }

  /** The month table of normalize_date maps each English abbreviation to
      the two-digit number of its month. */
  lemma {:induction false} MonthNames(m: int)
    requires 1 <= m <= 12
    ensures MonthNumber(MonthAbbr(m)) == Digits(m, 2)
  {
    if m <= 6 {
      MonthNamesFirstHalf(m);
    } else {
      MonthNamesSecondHalf(m);
    }
  }

  /** Each abbreviation is three letters. */
  lemma {:induction false} MonthAbbrShape(m: int)
    requires 1 <= m <= 12
    ensures |MonthAbbr(m)| == 3 && !IsDigit(MonthAbbr(m)[0])
    ensures NoSpace(MonthAbbr(m)) && ',' !in MonthAbbr(m)
  {
    if m == 1 {
      assert MonthAbbr(m) == "Jan";
    } else if m == 2 {
      assert MonthAbbr(m) == "Feb";
    } else if m == 3 {
      assert MonthAbbr(m) == "Mar";
    } else if m == 4 {
      assert MonthAbbr(m) == "Apr";
    } else if m == 5 {
      assert MonthAbbr(m) == "May";
    } else if m == 6 {
      assert MonthAbbr(m) == "Jun";
    } else if m == 7 {
      assert MonthAbbr(m) == "Jul";
    } else if m == 8 {
      assert MonthAbbr(m) == "Aug";
    } else if m == 9 {
      assert MonthAbbr(m) == "Sep";
    } else if m == 10 {
      assert MonthAbbr(m) == "Oct";
    } else if m == 11 {
      assert MonthAbbr(m) == "Nov";
    } else {
      assert MonthAbbr(m) == "Dec";
    }
  }

  /** The English branch of normalize_date: after stripping the text and
      its trailing dots, a text that is not ISO-shaped, holds a comma and
      splits into three fields once the commas are dropped becomes the
      third field, the month number of the first ("01" for an unknown
      name) and the second zero-padded to 2, joined by '-'. */
  lemma {:induction false} CommaBranch(s: string, p: seq<string>)
    requires s != ""
    requires var t := TrimRightDots(Strip(s));
      !IsoPattern(t) && ',' in t && Fields(RemoveChar(t, ',')) == p && |p| == 3
    ensures NormalizeDate(s) == p[2] + "-" + MonthNumber(p[0]) + "-" + Zfill(p[1], 2)
  {
  }

  /** The dotted branch of normalize_date: after the same cleaning, a text
      that took neither of the branches before, holds a dot and has at
      least three digit runs becomes its first run, then the second and
      third zero-padded to 2, joined by '-'; the runs after the third are
      ignored. */
  lemma {:induction false} DotBranch(s: string, runs: seq<string>)
    requires s != ""
    requires var t := TrimRightDots(Strip(s));
      !IsoPattern(t) && !(',' in t && |Fields(RemoveChar(t, ','))| == 3) &&
      '.' in t && DigitRuns(t) == runs && |runs| >= 3
    ensures NormalizeDate(s) == runs[0] + "-" + Zfill(runs[1], 2) + "-" + Zfill(runs[2], 2)
  {
  }

  /** When no branch applies, normalize_date returns the cleaned text. */
  lemma {:induction false} NormalizeFallback(s: string)
    requires s != ""
    requires var t := TrimRightDots(Strip(s));
      !IsoPattern(t) && !(',' in t && |Fields(RemoveChar(t, ','))| == 3) &&
      !('.' in t && |DigitRuns(t)| >= 3)
    ensures NormalizeDate(s) == TrimRightDots(Strip(s))
  {
  }

  /** Dropping the comma from "Mon D, YYYY" leaves "Mon D YYYY". */
  lemma {:induction false} EnglishComma(mon: string, day: string, year: string)
    requires ',' !in mon && ',' !in day && ',' !in year
    ensures RemoveChar(mon + " " + day + ", " + year, ',') == mon + (" " + (day + (" " + year)))
  {
    var a, b := mon + (" " + day), " " + year;
    assert mon + " " + day + ", " + year == a + ([','] + b);
    calc {
      RemoveChar(a + ([','] + b), ',');
    == { RemoveCharAppend(a, [','] + b, ','); }
      RemoveChar(a, ',') + RemoveChar([','] + b, ',');
    == { RemoveCharNoOp(a, ','); assert ([','] + b)[1..] == b; }
      a + RemoveChar(b, ',');
    == { RemoveCharNoOp(b, ','); }
      a + b;
    }
  }

  /** The fields of "Mon D YYYY" are its three words. */
  /** Two words separated by one space split into those words. */
  lemma {:induction false} FieldsTwo(w: string, v: string)
    requires w != [] && NoSpace(w) && v != [] && NoSpace(v)
    ensures Fields(w + (" " + v)) == [w] + [v]
  {
    FieldsOneWord(v);
    FieldsLead(v);
    var r := " " + v;
    assert r[0] == ' ' && |r| > 1 && r[1] == v[0] && !IsSpace(v[0]);
    assert Fields(r) == [v];
    FieldsWordRest(w, r);
  }

  lemma {:induction false} EnglishFields(mon: string, day: string, year: string)
    requires mon != [] && NoSpace(mon) && day != [] && NoSpace(day) && year != [] && NoSpace(year)
    ensures Fields(mon + (" " + (day + (" " + year)))) == [mon] + ([day] + [year])
  {
    var c := day + (" " + year);
    FieldsTwo(day, year);
    assert c[0] == day[0] && !IsSpace(day[0]);
    FieldsLead(c);
    var r := " " + c;
    assert r[0] == ' ' && |r| > 1 && r[1] == c[0];
    FieldsWordRest(mon, r);
  }

  /** "Mon D, YYYY" written from three words normalises field by field. */
  lemma {:induction false} EnglishWords(mon: string, day: string, year: string)
    requires mon != [] && NoSpace(mon) && ',' !in mon && !IsDigit(mon[0])
    requires day != [] && AllDigits(day) && |year| == 4 && AllDigits(year)
    ensures NormalizeDate(mon + " " + day + ", " + year) ==
              year + "-" + MonthNumber(mon) + "-" + Zfill(day, 2)
  {
    var s := mon + " " + day + ", " + year;
    assert s[0] == mon[0] && s[|s| - 1] == year[3];
    assert NoSpace(day) && ',' !in day by {
      forall i | 0 <= i < |day| ensures !IsSpace(day[i]) && day[i] != ',' { assert IsDigit(day[i]); }
    }
    assert NoSpace(year) && ',' !in year by {
      forall i | 0 <= i < |year| ensures !IsSpace(year[i]) && year[i] != ',' { assert IsDigit(year[i]); }
    }
    StripNoOp(s);
    assert TrimRightDots(s) == s;
    assert !IsoPattern(s) by { assert s[..4][0] == mon[0]; }
    assert s[|mon| + 1 + |day|] == ',';
    EnglishComma(mon, day, year);
    EnglishFields(mon, day, year);
    CommaBranch(s, [mon] + ([day] + [year]));
  }

  /** The English spelling "Mon D, YYYY" normalises to the ISO date. */
  lemma NormalizeEnglish(d: Date)
    requires ValidDate(d)
    ensures NormalizeDate(EnglishSpelling(d)) == IsoFormat(d)
  {
    var mon, day, year := MonthAbbr(d.month), NatStr(d.day), Digits(d.year, 4);
    MonthNames(d.month);
    MonthAbbrShape(d.month);
    EnglishWords(mon, day, year);
    ZfillNatStr(d.day);
    var mm, dd := MonthNumber(mon), Zfill(day, 2);
    assert mm == Digits(d.month, 2) && dd == Digits(d.day, 2);
    assert EnglishSpelling(d) == mon + " " + day + ", " + year;
    assert IsoFormat(d) == year + "-" + mm + "-" + dd;
  }

  /** Digit runs of a run of digits followed by a non-digit. */
  lemma {:induction false} DigitRunsLead(w: string, rest: string)
    requires w != [] && AllDigits(w)
    requires rest == [] || !IsDigit(rest[0])
    ensures DigitRuns(w + rest) == [w] + DigitRuns(rest)
  {
    var s := w + rest;
    var v := DigitPrefix(s);
    assert forall i :: 0 <= i < |w| ==> IsDigit(s[i]);
    assert |w| < |s| ==> !IsDigit(s[|w|]);
    assert |v| == |w|;
    assert v == s[..|v|] == w;
    assert s[|w|..] == rest;
  }

  lemma {:induction false} DigitRunsSkip(c: char, rest: string)
    requires !IsDigit(c)
    ensures DigitRuns([c] + rest) == DigitRuns(rest)
  {
    assert ([c] + rest)[1..] == rest;
  }

  /** A date separator "." or ". " holds no digit. */
  lemma {:induction false} DigitRunsSep(sep: string, rest: string)
    requires sep == "." || sep == ". "
    ensures DigitRuns(sep + rest) == DigitRuns(rest)
  {
    if sep == "." {
      DigitRunsSkip('.', rest);
    } else {
      assert ". " + rest == ['.'] + ([' '] + rest);
      DigitRunsSkip(' ', rest);
      DigitRunsSkip('.', [' '] + rest);
    }
  }

  /** The digit runs of "Y<sep>M<sep>D" are its three numbers. */
  lemma {:induction false} DotRuns(y: string, m: string, dd: string, sep: string)
    requires y != [] && AllDigits(y) && m != [] && AllDigits(m) && dd != [] && AllDigits(dd)
    requires sep == "." || sep == ". "
    ensures DigitRuns(y + (sep + (m + (sep + dd)))) == [y] + ([m] + [dd])
  {
    DigitRunsLead(dd, []);
    assert dd + [] == dd;
    DigitRunsSep(sep, dd);
    DigitRunsLead(m, sep + dd);
    DigitRunsSep(sep, m + (sep + dd));
    DigitRunsLead(y, sep + (m + (sep + dd)));
  }

  lemma {:induction false} NoCommaNoDot(w: string)
    requires AllDigits(w)
    ensures ',' !in w && '.' !in w
  {
    assert forall i :: 0 <= i < |w| ==> w[i] != ',' && w[i] != '.' by {
      forall i | 0 <= i < |w| ensures w[i] != ',' && w[i] != '.' { assert IsDigit(w[i]); }
    }
  }

  /** "Y<sep>M<sep>D" is not ISO, has no comma, and starts and ends with a digit. */
  lemma {:induction false} DotChars(y: string, m: string, dd: string, sep: string, s: string)
    requires |y| == 4 && AllDigits(y) && m != [] && AllDigits(m) && dd != [] && AllDigits(dd)
    requires sep == "." || sep == ". "
    requires s == y + (sep + (m + (sep + dd)))
    ensures |s| > 0 && IsDigit(s[0]) && IsDigit(s[|s| - 1])
    ensures !IsoPattern(s) && ',' !in s && '.' in s
  {
    assert s[0] == y[0] && s[4] == '.' && s[|s| - 1] == dd[|dd| - 1];
    assert |s| >= 10 ==> s[..10][4] == '.';
    NoCommaNoDot(y);
    NoCommaNoDot(m);
    NoCommaNoDot(dd);
    assert ',' !in sep;
  }

  /** A text that starts and ends with a digit is left alone by the cleaning
      at the head of normalize_date. */
  lemma {:induction false} DigitEndsClean(s: string)
    requires |s| > 0 && IsDigit(s[0]) && IsDigit(s[|s| - 1])
    ensures TrimRightDots(Strip(s)) == s
  {
    StripNoOp(s);
  }

  /** The digit runs of "Y<sep>M<sep>D", one by one. */
  lemma {:induction false} DotRunsAt(y: string, m: string, dd: string, sep: string, s: string)
    requires y != [] && AllDigits(y) && m != [] && AllDigits(m) && dd != [] && AllDigits(dd)
    requires sep == "." || sep == ". "
    requires s == y + (sep + (m + (sep + dd)))
    ensures |DigitRuns(s)| == 3 && DigitRuns(s)[0] == y && DigitRuns(s)[1] == m && DigitRuns(s)[2] == dd
  {
    DotRuns(y, m, dd, sep);
  }

  /** The dotted branch for a text that starts and ends with a digit and
      has no comma. */
  lemma {:induction false} CleanDotBranch(s: string, y: string, m: string, dd: string)
    requires |s| > 0 && IsDigit(s[0]) && IsDigit(s[|s| - 1])
    requires !IsoPattern(s) && ',' !in s && '.' in s
    requires |DigitRuns(s)| == 3 && DigitRuns(s)[0] == y && DigitRuns(s)[1] == m && DigitRuns(s)[2] == dd
    ensures NormalizeDate(s) == y + "-" + Zfill(m, 2) + "-" + Zfill(dd, 2)
  {
    DigitEndsClean(s);
    DotBranch(s, DigitRuns(s));
  }

  /** "Y<sep>M<sep>D" written from three numbers normalises number by number. */
  lemma {:induction false} DotWords(y: string, m: string, dd: string, sep: string)
    requires |y| == 4 && AllDigits(y) && m != [] && AllDigits(m) && dd != [] && AllDigits(dd)
    requires sep == "." || sep == ". "
    ensures NormalizeDate(y + (sep + (m + (sep + dd)))) == y + "-" + Zfill(m, 2) + "-" + Zfill(dd, 2)
  {
    var s := y + (sep + (m + (sep + dd)));
    DotChars(y, m, dd, sep, s);
    DotRunsAt(y, m, dd, sep, s);
    CleanDotBranch(s, y, m, dd);
  }

  /** The compact dotted spelling "YYYY.MM.DD" normalises to the ISO date. */
  lemma {:induction false} NormalizeDotted(d: Date)
    requires ValidDate(d)
    ensures NormalizeDate(DotSpelling(d)) == IsoFormat(d)
  {
    var y, m, dd := Digits(d.year, 4), Digits(d.month, 2), Digits(d.day, 2);
    Regroup(y, ".", m, ".", dd);
    DotWords(y, m, dd, ".");
    assert Zfill(m, 2) == m && Zfill(dd, 2) == dd;
  }

  /** The spaced Korean spelling "YYYY. M. D" normalises to the ISO date. */
  lemma {:induction false} NormalizeSpacedDots(d: Date)
    requires ValidDate(d)
    ensures NormalizeDate(SpacedDotSpelling(d)) == IsoFormat(d)
  {
    var y, m, dd := Digits(d.year, 4), NatStr(d.month), NatStr(d.day);
    Regroup(y, ". ", m, ". ", dd);
    ZfillNatStr(d.month);
    ZfillNatStr(d.day);
    DotWords(y, m, dd, ". ");
  }

  // ---------------------------------------------------------------------
  // summarize_text (utils.py:77-94)
  // ---------------------------------------------------------------------

  predicate Terminal(c: char) {
    c == '.' || c == '?' || c == '!'
  }

  /** re.split(r'(?<=[.?!])\s+', s) cuts at i: whitespace right after
      sentence-ending punctuation. */
  predicate SplitPoint(s: string, i: int) {
    0 < i < |s| && IsSpace(s[i]) && Terminal(s[i - 1])
  }

  /** The first split point at or after from. */
  function FirstSplit(s: string, from: nat): (r: Option<nat>)
    requires from <= |s|
    ensures r.Some? ==> from <= r.value && SplitPoint(s, r.value)
    ensures r.Some? ==> forall j :: from <= j < r.value ==> !SplitPoint(s, j)
    ensures r.None? ==> forall j :: from <= j < |s| ==> !SplitPoint(s, j)
    decreases |s| - from
  {
    if from == |s| then None
    else if SplitPoint(s, from) then Some(from)
    else FirstSplit(s, from + 1)
  }

  /** The pieces of the split: at each split point the separator is the
      whole whitespace run, so the next piece does not start with
      whitespace; a run at the very end leaves an empty last piece. */
  function Sentences(s: string): (r: seq<string>)
    ensures r != []
    decreases |s|
  {
    match FirstSplit(s, 0)
    case None => [s]
    case Some(i) => [s[..i]] + Sentences(s[SkipSpace(s, i)..])
  }

  /** The whitespace runs the split removes, one between each two pieces. */
  function Separators(s: string): seq<string>
    decreases |s|
  {
    match FirstSplit(s, 0)
    case None => []
    case Some(i) => [s[i..SkipSpace(s, i)]] + Separators(s[SkipSpace(s, i)..])
  }

  /** Every character of s is whitespace. */
  predicate NoVisible(s: string) {
    forall i :: 0 <= i < |s| ==> IsSpace(s[i])
  }

  /** The pieces interleaved with the separators. */
  function Interleave(pieces: seq<string>, seps: seq<string>): string
    requires |seps| + 1 == |pieces|
  {
    if |pieces| == 1 then pieces[0]
    else pieces[0] + seps[0] + Interleave(pieces[1..], seps[1..])
  }

  /** The run removed at a split point is non-empty whitespace, so the
      rest of the text is shorter than the text. */
  lemma {:induction false} RunWhitespace(s: string, i: nat)
    requires FirstSplit(s, 0) == Some(i)
    ensures 0 < i < SkipSpace(s, i) && NoVisible(s[i..SkipSpace(s, i)])
  {
    var e := SkipSpace(s, i);
    forall j | 0 <= j < e - i ensures IsSpace(s[i..e][j]) {
      assert s[i..e][j] == s[i + j];
    }
  }

  /** One step of the split: the first piece and the pieces of the rest. */
  lemma {:induction false} SentencesStep(s: string, i: nat)
    requires FirstSplit(s, 0) == Some(i)
    ensures Sentences(s) == [s[..i]] + Sentences(s[SkipSpace(s, i)..])
  {
  }

  /** One step of the split: the first run and the runs of the rest. */
  lemma {:induction false} SeparatorsStep(s: string, i: nat)
    requires FirstSplit(s, 0) == Some(i)
    ensures Separators(s) == [s[i..SkipSpace(s, i)]] + Separators(s[SkipSpace(s, i)..])
  {
  }

  /** There is one separator between each two pieces. */
  lemma {:induction false} SeparatorsCount(s: string)
    ensures |Separators(s)| + 1 == |Sentences(s)|
    decreases |s|
  {
    match FirstSplit(s, 0)
    case None =>
    case Some(i) =>
      var e := SkipSpace(s, i);
      RunWhitespace(s, i);
      SentencesStep(s, i);
      SeparatorsStep(s, i);
      SeparatorsCount(s[e..]);
  }

  /** Every separator is a non-empty run of whitespace. */
  lemma {:induction false} SeparatorsWhitespace(s: string)
    ensures forall k :: 0 <= k < |Separators(s)| ==>
              Separators(s)[k] != [] && NoVisible(Separators(s)[k])
    decreases |s|
  {
    match FirstSplit(s, 0)
    case None =>
    case Some(i) =>
      var e := SkipSpace(s, i);
      SeparatorsStep(s, i);
      RunWhitespace(s, i);
      SeparatorsWhitespace(s[e..]);
      var ss, rs := Separators(s), Separators(s[e..]);
      assert ss == [s[i..e]] + rs;
      forall k | 0 <= k < |ss| ensures ss[k] != [] && NoVisible(ss[k]) {
        if k > 0 {
          assert ss[k] == rs[k - 1];
        }
      }
  }

  /** A text is its three consecutive slices put together. */
  lemma {:induction false} ThreeSlices(s: string, i: nat, e: nat)
    requires i <= e <= |s|
    ensures s == s[..i] + s[i..e] + s[e..]
  {
  }

  /** The split loses nothing: putting the separators back between the
      pieces gives the text again. */
  lemma {:induction false} SentencesLossless(s: string)
    ensures |Separators(s)| + 1 == |Sentences(s)|
    ensures Interleave(Sentences(s), Separators(s)) == s
    decreases |s|
  {
    SeparatorsCount(s);
    match FirstSplit(s, 0)
    case None =>
    case Some(i) =>
      var e := SkipSpace(s, i);
      RunWhitespace(s, i);
      SentencesStep(s, i);
      SeparatorsStep(s, i);
      SentencesLossless(s[e..]);
      var ps, ss := Sentences(s), Separators(s);
      assert ps[1..] == Sentences(s[e..]) && ss[1..] == Separators(s[e..]);
      calc {
        Interleave(ps, ss);
        ps[0] + ss[0] + Interleave(ps[1..], ss[1..]);
        s[..i] + s[i..e] + s[e..];
        { ThreeSlices(s, i, e); }
        s;
      }
  }

  /** No piece of the split holds a split point of its own. */
  lemma {:induction false} SentencesNoSplit(s: string)
    ensures forall k, j :: 0 <= k < |Sentences(s)| ==> !SplitPoint(Sentences(s)[k], j)
    decreases |s|
  {
    match FirstSplit(s, 0)
    case None =>
      assert Sentences(s) == [s];
    case Some(i) =>
      var e := SkipSpace(s, i);
      RunWhitespace(s, i);
      SentencesStep(s, i);
      SentencesNoSplit(s[e..]);
      var p := s[..i];
      forall j ensures !SplitPoint(p, j) {
        if 0 < j < |p| {
          assert p[j] == s[j] && p[j - 1] == s[j - 1];
          assert !SplitPoint(s, j);
        }
      }
  }

  /** The first piece of the split is a prefix of the text. */
  lemma {:induction false} SentencesHead(s: string)
    ensures |Sentences(s)[0]| <= |s| && Sentences(s)[0] == s[..|Sentences(s)[0]|]
  {
    match FirstSplit(s, 0)
    case None =>
      assert Sentences(s)[0] == s;
    case Some(i) =>
      SentencesStep(s, i);
  }

  /** Each separator is the whole whitespace run: every piece after the
      first is empty or starts with a non-whitespace character. */
  lemma {:induction false} SentencesMaximalRuns(s: string)
    ensures forall k :: 0 < k < |Sentences(s)| ==> Sentences(s)[k] == [] || !IsSpace(Sentences(s)[k][0])
    decreases |s|
  {
    match FirstSplit(s, 0)
    case None =>
    case Some(i) =>
      var e := SkipSpace(s, i);
      RunWhitespace(s, i);
      SentencesStep(s, i);
      SentencesMaximalRuns(s[e..]);
      SentencesHead(s[e..]);
      var ps, qs := Sentences(s), Sentences(s[e..]);
      forall k | 0 < k < |ps| ensures ps[k] == [] || !IsSpace(ps[k][0]) {
        assert ps[k] == qs[k - 1];
        if k == 1 && qs[0] != [] {
          assert qs[0][0] == s[e..][0] == s[e];
        }
      }
  }

  /** Every piece but the last ends with sentence-ending punctuation. */
  lemma {:induction false} SentencesTerminal(s: string)
    ensures forall k :: 0 <= k < |Sentences(s)| - 1 ==>
              Sentences(s)[k] != [] && Terminal(Sentences(s)[k][|Sentences(s)[k]| - 1])
    decreases |s|
  {
    match FirstSplit(s, 0)
    case None =>
    case Some(i) =>
      var e := SkipSpace(s, i);
      RunWhitespace(s, i);
      SentencesStep(s, i);
      SentencesTerminal(s[e..]);
      var p, ps, qs := s[..i], Sentences(s), Sentences(s[e..]);
      assert ps == [p] + qs;
      assert p != [] && p[|p| - 1] == s[i - 1];
      forall k | 0 <= k < |ps| - 1
        ensures ps[k] != [] && Terminal(ps[k][|ps[k]| - 1])
      {
        if k > 0 {
          assert ps[k] == qs[k - 1];
        }
      }
  }

  /** The sentences whose stripped length is over 20. */
  function LongSentences(ps: seq<string>): (r: seq<string>)
    ensures |r| <= |ps|
    ensures forall x :: x in r <==> x in ps && |Strip(x)| > 20
  {
    if ps == [] then []
    else (if |Strip(ps[0])| > 20 then [ps[0]] else []) + LongSentences(ps[1..])
  }

  /** A single piece is kept exactly when it is long. */
  lemma LongSentencesOne(x: string)
    ensures LongSentences([x]) == if |Strip(x)| > 20 then [x] else []
  {
    assert [x][1..] == [];
  }

  /** The filter over a piece followed by more pieces. */
  lemma LongSentencesCons(x: string, rest: seq<string>)
    ensures LongSentences([x] + rest) == (if |Strip(x)| > 20 then [x] else []) + LongSentences(rest)
  {
    assert ([x] + rest)[1..] == rest;
  }

  /** The filter keeps the order of the pieces: filtering a + b is
      filtering a, then filtering b. */
  lemma {:induction false} LongSentencesAppend(a: seq<string>, b: seq<string>)
    ensures LongSentences(a + b) == LongSentences(a) + LongSentences(b)
    decreases |a|
  {
    if a == [] {
      assert a + b == b;
    } else {
      var x, t := a[0], a[1..];
      LongSentencesAppend(t, b);
      SplitFront(a, b);
      LongSentencesCons(x, t + b);
      LongSentencesCons(x, t);
      Assoc3(if |Strip(x)| > 20 then [x] else [], LongSentences(t), LongSentences(b));
    }
  }

  /** summarize_text: the first n long sentences joined by single spaces;
      without any long sentence, the text itself when it has at most 200
      characters, else its first 200 characters and "...". */
  function Summarize(text: string, n: nat): (r: string)
    ensures text == "" ==> r == ""
  {
    if text == "" then ""
    else
      var valid := LongSentences(Sentences(text));
      if valid == [] then
        if |text| > 200 then text[..200] + "..." else text
      else Join(" ", valid[..if n < |valid| then n else |valid|])
  }

  /** Without any long sentence the summary is the text cut to its first
      200 characters, with "..." added exactly when something was cut. */
  lemma {:induction false} SummarizeFallback(text: string, n: nat)
    requires text != "" && LongSentences(Sentences(text)) == []
    ensures StartsWith(Summarize(text, n), Take(text, 200))
    ensures |Summarize(text, n)| == if |text| > 200 then 203 else |text|
    ensures |text| <= 200 ==> Summarize(text, n) == text
    ensures |text| > 200 ==> Summarize(text, n) == text[..200] + "..."
  {
  }

  /** A join begins with its first part. */
  lemma {:induction false} JoinStartsWith(sep: string, parts: seq<string>)
    requires parts != []
    ensures StartsWith(Join(sep, parts), parts[0])
  {
    if |parts| > 1 {
      assert Join(sep, parts) == parts[0] + (sep + Join(sep, parts[1..]));
    }
  }

  /** With long sentences the summary is the first n of them in the order
      of the text, or all of them when there are fewer, joined by single
      spaces; it begins with the first long sentence. */
  lemma {:induction false} SummarizeSelected(text: string, n: nat)
    requires text != "" && LongSentences(Sentences(text)) != [] && n >= 1
    ensures n <= |LongSentences(Sentences(text))| ==>
      Summarize(text, n) == Join(" ", LongSentences(Sentences(text))[..n])
    ensures |LongSentences(Sentences(text))| <= n ==>
      Summarize(text, n) == Join(" ", LongSentences(Sentences(text)))
    ensures var valid := LongSentences(Sentences(text));
      StartsWith(Summarize(text, n), valid[0]) && |Strip(valid[0])| > 20 && valid[0] in Sentences(text)
  {
    var valid := LongSentences(Sentences(text));
    var k := if n < |valid| then n else |valid|;
    var taken := valid[..k];
    assert Summarize(text, n) == Join(" ", taken);
    FirstFew(valid, n);
    assert valid[0] in valid;
    JoinStartsWith(" ", taken);
    assert taken[0] == valid[0];
  }

  /** The first min(n, |v|) elements are the first n, or all of v. */
  lemma {:induction false} FirstFew(v: seq<string>, n: nat)
    ensures n <= |v| ==> v[..if n < |v| then n else |v|] == v[..n]
    ensures |v| <= n ==> v[..if n < |v| then n else |v|] == v
  {
    assert v[..|v|] == v;
  }

  /** With n >= 1 the summary is empty only for the empty text. */
  lemma {:induction false} SummarizeEmpty(text: string, n: nat)
    requires n >= 1
    ensures Summarize(text, n) == "" <==> text == ""
  {
    var valid := LongSentences(Sentences(text));
    if text != "" && valid != [] {
      SummarizeSelected(text, n);
      assert valid[0] in valid;
      assert |valid[0]| > 20;
    }
  }
}
