/** Character classes and string primitives that the scraper's Python code
    takes from the language: str.isspace, str.strip, str.zfill, str.split,
    str.startswith, str.join, and the filter that drops the characters a
    Windows file name may not contain. */
module Text {

  datatype Option<+T> = None | Some(value: T)

  /** The characters for which Python's str.isspace() holds; on str patterns
      the regular-expression class \s matches exactly these. */
  predicate IsSpace(c: char) {
    || c == ' ' || '\t' <= c <= '\r' || '\U{1c}' <= c <= '\U{1f}'
    || c == '\U{85}' || c == '\U{a0}' || c == '\U{1680}'
    || '\U{2000}' <= c <= '\U{200a}' || c == '\U{2028}' || c == '\U{2029}'
    || c == '\U{202f}' || c == '\U{205f}' || c == '\U{3000}'
  }

  /** An ASCII decimal digit. */
  predicate IsDigit(c: char) {
    '0' <= c <= '9'
  }

  predicate AllDigits(s: string) {
    forall i :: 0 <= i < |s| ==> IsDigit(s[i])
  }

  predicate NoSpace(s: string) {
    forall i :: 0 <= i < |s| ==> !IsSpace(s[i])
  }

  /** Neither end of s is whitespace. */
  predicate NoEdgeSpace(s: string) {
    s == [] || (!IsSpace(s[0]) && !IsSpace(s[|s| - 1]))
  }

  /** str.lstrip(): the suffix left after dropping leading whitespace. */
  function TrimLeft(s: string): (r: string)
    ensures |r| <= |s|
    ensures r == [] || !IsSpace(r[0])
    ensures forall i :: 0 <= i < |s| - |r| ==> IsSpace(s[i])
  {
    if s != [] && IsSpace(s[0]) then TrimLeft(s[1..]) else s
  }

  /** Character i of the left-trimmed text is character i of s after the
      leading whitespace. */
  lemma {:induction false} TrimLeftAt(s: string, i: nat)
    requires i < |TrimLeft(s)|
    ensures TrimLeft(s)[i] == s[|s| - |TrimLeft(s)| + i]
    decreases |s|
  {
    if s != [] && IsSpace(s[0]) {
      TrimLeftAt(s[1..], i);
    }
  }

  /** The left-trimmed text is the suffix of s after the leading
      whitespace. */
  lemma TrimLeftSuffix(s: string)
    ensures TrimLeft(s) == s[|s| - |TrimLeft(s)|..]
  {
    forall i | 0 <= i < |TrimLeft(s)| ensures TrimLeft(s)[i] == s[|s| - |TrimLeft(s)| + i] {
      TrimLeftAt(s, i);
    }
  }

  /** str.rstrip(): the prefix left after dropping trailing whitespace. */
  function TrimRight(s: string): (r: string)
    ensures |r| <= |s| && (r != [] ==> r[0] == s[0])
    ensures r == [] || !IsSpace(r[|r| - 1])
  {
    if s != [] && IsSpace(s[|s| - 1]) then TrimRight(s[..|s| - 1]) else s
  }

  /** The right-trimmed text is a prefix of s followed in s by whitespace
      only. */
  lemma {:induction false} TrimRightPrefixOf(s: string)
    ensures TrimRight(s) == s[..|TrimRight(s)|]
    ensures forall i :: |TrimRight(s)| <= i < |s| ==> IsSpace(s[i])
    decreases |s|
  {
    if s != [] && IsSpace(s[|s| - 1]) {
      var p := s[..|s| - 1];
      TrimRightPrefixOf(p);
      assert p[..|TrimRight(p)|] == s[..|TrimRight(p)|];
      assert forall i :: |TrimRight(p)| <= i < |p| ==> p[i] == s[i];
    }
  }

  /** str.strip() */
  function Strip(s: string): (r: string)
    ensures NoEdgeSpace(r)
    ensures |r| <= |s|
  {
    TrimRight(TrimLeft(s))
  }

  /** Strip removes whitespace at the two ends and nothing else: the result
      is the text of s between two runs of whitespace. */
  lemma {:induction false} StripSlice(s: string) returns (lo: nat)
    ensures lo + |Strip(s)| <= |s|
    ensures forall i :: 0 <= i < |Strip(s)| ==> Strip(s)[i] == s[lo + i]
    ensures forall i :: 0 <= i < lo ==> IsSpace(s[i])
    ensures forall i :: lo + |Strip(s)| <= i < |s| ==> IsSpace(s[i])
  {
    lo := |s| - |TrimLeft(s)|;
    forall i | 0 <= i < |Strip(s)| ensures Strip(s)[i] == s[lo + i] {
      StripAt(s, i);
    }
    StripTrailing(s);
  }

  /** Character i of the stripped text is character i of s after the
      leading whitespace. */
  lemma {:induction false} StripAt(s: string, i: nat)
    requires i < |Strip(s)|
    ensures |s| - |TrimLeft(s)| + |Strip(s)| <= |s|
    ensures Strip(s)[i] == s[|s| - |TrimLeft(s)| + i]
  {
    var u := TrimLeft(s);
    TrimRightPrefixOf(u);
    assert Strip(s)[i] == u[i];
    TrimLeftAt(s, i);
  }

  /** Only whitespace follows the stripped text. */
  lemma {:induction false} StripTrailing(s: string)
    ensures forall i :: |s| - |TrimLeft(s)| + |Strip(s)| <= i < |s| ==> IsSpace(s[i])
  {
    var u := TrimLeft(s);
    var lo := |s| - |u|;
    var r := TrimRight(u);
    TrimRightPrefixOf(u);
    forall i | lo + |r| <= i < |s| ensures IsSpace(s[i]) {
      TrimLeftAt(s, i - lo);
    }
  }

  lemma {:induction false} TrimLeftNoOp(s: string)
    requires s == [] || !IsSpace(s[0])
    ensures TrimLeft(s) == s
  {
  }

  lemma {:induction false} TrimRightNoOp(s: string)
    requires s == [] || !IsSpace(s[|s| - 1])
    ensures TrimRight(s) == s
  {
  }

  /** A string without whitespace at its ends is its own strip; in
      particular strip is idempotent. */
  lemma {:induction false} StripNoOp(s: string)
    requires NoEdgeSpace(s)
    ensures Strip(s) == s
  {
    TrimLeftNoOp(s);
    TrimRightNoOp(s);
  }

  lemma {:induction false} StripIdempotent(s: string)
    ensures Strip(Strip(s)) == Strip(s)
  {
    StripNoOp(Strip(s));
  }

  /** Right-trimming a prefix of u gives a prefix of right-trimming u. */
  lemma {:induction false} TrimRightPrefix(p: string, u: string)
    requires |p| <= |u| && p == u[..|p|]
    ensures |TrimRight(p)| <= |TrimRight(u)|
    ensures TrimRight(p) == TrimRight(u)[..|TrimRight(p)|]
  {
    var a, b := TrimRight(p), TrimRight(u);
    TrimRightPrefixOf(p);
    TrimRightPrefixOf(u);
    if a != [] {
      var k := |a| - 1;
      assert !IsSpace(u[k]) by { assert u[k] == p[k] == a[k]; }
      assert k < |b|;
      assert a == p[..|a|] == u[..|a|];
      assert b[..|a|] == u[..|a|];
    }
  }

  /** Stripping a prefix of s gives a prefix of stripping s. */
  lemma {:induction false} StripPrefix(s: string, n: nat)
    requires n <= |s|
    ensures StartsWith(Strip(s), Strip(s[..n]))
  {
    var u := TrimLeft(s);
    var v := TrimLeft(s[..n]);
    var lo := |s| - |u|;
    if v == [] {
      assert TrimRight(v) == [];
    } else {
      // the first non-space character of s[..n] is the first of s
      var lo' := n - |v|;
      assert forall i :: 0 <= i < lo' ==> IsSpace(s[i]) by {
        forall i | 0 <= i < lo' ensures IsSpace(s[i]) { assert s[i] == s[..n][i]; }
      }
      assert !IsSpace(s[lo']) by { TrimLeftAt(s[..n], 0); assert s[lo'] == s[..n][lo']; }
      assert !IsSpace(s[lo]) by { TrimLeftAt(s, 0); }
      assert lo == lo';
      forall i | 0 <= i < |v| ensures v[i] == u[i] {
        TrimLeftAt(s[..n], i);
        TrimLeftAt(s, i);
        assert s[..n][lo + i] == s[lo + i];
      }
      assert v == u[..|v|];
      TrimRightPrefix(v, u);
    }
  }

  /** The characters that scraper.py and migrate_folders.py drop from titles
      and file names: \ / * ? : " < > | */
  predicate Forbidden(c: char) {
    c == '\\' || c == '/' || c == '*' || c == '?' || c == ':' || c == '"'
    || c == '<' || c == '>' || c == '|'
  }

  predicate NoForbidden(s: string) {
    forall i :: 0 <= i < |s| ==> !Forbidden(s[i])
  }

  /** Drops every forbidden character (the regular-expression substitution
      of the forbidden class by the empty string). */
  function Sanitize(s: string): (r: string)
    ensures NoForbidden(r)
    ensures |r| <= |s|
  {
    if s == [] then []
    else (if Forbidden(s[0]) then [] else [s[0]]) + Sanitize(s[1..])
  }

  /** Sanitize works character by character: it distributes over
      concatenation, so every allowed character is kept in its place in the
      order and every forbidden one is dropped. */
  lemma {:induction false} SanitizeAppend(a: string, b: string)
    ensures Sanitize(a + b) == Sanitize(a) + Sanitize(b)
  {
    if a != [] {
      assert (a + b)[0] == a[0] && (a + b)[1..] == a[1..] + b;
      SanitizeAppend(a[1..], b);
      calc {
        Sanitize(a + b);
        (if Forbidden(a[0]) then [] else [a[0]]) + Sanitize(a[1..] + b);
        (if Forbidden(a[0]) then [] else [a[0]]) + Sanitize(a[1..]) + Sanitize(b);
        Sanitize(a) + Sanitize(b);
      }
    } else {
      assert a + b == b;
    }
  }

  lemma {:induction false} SanitizeChar(c: char)
    ensures Sanitize([c]) == if Forbidden(c) then [] else [c]
  {
  }

  /** A string without forbidden characters is left as it is. */
  lemma {:induction false} SanitizeNoOp(s: string)
    requires NoForbidden(s)
    ensures Sanitize(s) == s
  {
    if s != [] {
      SanitizeNoOp(s[1..]);
    }
  }

  /** Stripping keeps a string free of forbidden characters. */
  lemma {:induction false} StripNoForbidden(s: string)
    requires NoForbidden(s)
    ensures NoForbidden(Strip(s))
  {
    var c := Strip(s);
    forall i | 0 <= i < |c| ensures !Forbidden(c[i]) {
      StripAt(s, i);
    }
  }

  /** Removing characters from a string whose ends are not whitespace can
      expose whitespace, so strip is applied after sanitising; the result of
      that pair is a fixed point of the pair. */
  lemma {:induction false} CleanNameIdempotent(s: string)
    ensures Strip(Sanitize(Strip(Sanitize(s)))) == Strip(Sanitize(s))
  {
    var c := Strip(Sanitize(s));
    assert NoForbidden(c) by {
      forall i | 0 <= i < |c| ensures !Forbidden(c[i]) {
        StripAt(Sanitize(s), i);
      }
    }
    SanitizeNoOp(c);
    StripNoOp(c);
  }

  /** Concatenation regrouped around a front element. */
  lemma ConsAssoc<T>(x: T, p: seq<T>, q: seq<T>)
    ensures [x] + (p + q) == ([x] + p) + q
  {
  }

  /** A non-empty sequence is its head followed by its tail. */
  lemma SplitFront<T>(a: seq<T>, b: seq<T>)
    requires a != []
    ensures a == [a[0]] + a[1..] && a + b == [a[0]] + (a[1..] + b)
  {
  }

  /** Concatenation is associative. */
  lemma Assoc3<T>(p: seq<T>, q: seq<T>, r: seq<T>)
    ensures p + (q + r) == (p + q) + r
  {
  }

  /** Five concatenated pieces, grouped from the right. */
  lemma Regroup<T>(a: seq<T>, b: seq<T>, c: seq<T>, d: seq<T>, e: seq<T>)
    ensures a + b + c + d + e == a + (b + (c + (d + e)))
  {
  }

  predicate StartsWith(s: string, p: string) {
    |p| <= |s| && s[..|p|] == p
  }

  /** s[:n] with Python's clamping of n to the length. */
  function Take(s: string, n: nat): (r: string)
    ensures |r| == if n < |s| then n else |s|
    ensures StartsWith(s, r)
  {
    if n < |s| then s[..n] else s
  }

  /** Whether pat occurs in s as a substring (Python's `pat in s`). */
  predicate Occurs(pat: string, s: string)
    decreases |s|
  {
    StartsWith(s, pat) || (s != [] && Occurs(pat, s[1..]))
  }

  /** The first index of c in s, or None (str.find). */
  function IndexOf(s: string, c: char): (r: Option<nat>)
    ensures r.None? <==> c !in s
    ensures r.Some? ==> r.value < |s| && s[r.value] == c && c !in s[..r.value]
  {
    if s == [] then None
    else if s[0] == c then Some(0)
    else
      var k := IndexOf(s[1..], c);
      assert s == [s[0]] + s[1..];
      if k.None? then None
      else
        assert s[..k.value + 1] == [s[0]] + s[1..][..k.value];
        Some(k.value + 1)
  }

  function Zeros(n: nat): (r: string)
    ensures |r| == n && forall i :: 0 <= i < n ==> r[i] == '0'
  {
    if n == 0 then [] else "0" + Zeros(n - 1)
  }

  /** str.zfill(width): left-pad with '0' to the width; a leading sign
      stays in front of the padding. */
  function Zfill(s: string, width: nat): (r: string)
    ensures |r| == if |s| < width then width else |s|
    ensures |s| >= width ==> r == s
    ensures |s| < width && (s == [] || (s[0] != '+' && s[0] != '-')) ==>
              r == Zeros(width - |s|) + s
  {
    if |s| >= width then s
    else if s != [] && (s[0] == '+' || s[0] == '-') then [s[0]] + Zeros(width - |s|) + s[1..]
    else Zeros(width - |s|) + s
  }

  /** sep.join(parts) */
  function Join(sep: string, parts: seq<string>): (r: string)
    ensures parts == [] ==> r == []
    ensures |parts| == 1 ==> r == parts[0]
  {
    if parts == [] then []
    else if |parts| == 1 then parts[0]
    else parts[0] + sep + Join(sep, parts[1..])
  }

  /** str.replace(pat, ""): removes the non-overlapping occurrences of a
      non-empty pat, scanning left to right. */
  function RemoveAll(s: string, pat: string): (r: string)
    requires pat != []
    ensures |r| <= |s|
    decreases |s|
  {
    if s == [] then []
    else if StartsWith(s, pat) then RemoveAll(s[|pat|..], pat)
    else [s[0]] + RemoveAll(s[1..], pat)
  }

  /** The value of a run of decimal digits (Python's int() on such a run). */
  function DigitsValue(s: string): nat
    requires AllDigits(s)
  {
    if s == [] then 0
    else 10 * DigitsValue(s[..|s| - 1]) + (s[|s| - 1] as int - '0' as int)
  }

  function Pow10(w: nat): nat {
    if w == 0 then 1 else 10 * Pow10(w - 1)
  }

  /** n written in decimal with exactly w digits, zero-padded on the left
      (strftime's %Y, %m and %d for values that fit). */
  function Digits(n: nat, w: nat): (r: string)
    ensures |r| == w && AllDigits(r)
  {
    if w == 0 then [] else Digits(n / 10, w - 1) + [(('0' as int) + n % 10) as char]
  }

  /** Digits is the inverse of DigitsValue on values that fit. */
  lemma {:induction false} DigitsRoundTrip(n: nat, w: nat)
    requires n < Pow10(w)
    ensures DigitsValue(Digits(n, w)) == n
  {
    if w > 0 {
      var s := Digits(n, w);
      assert s[..|s| - 1] == Digits(n / 10, w - 1);
      DigitsRoundTrip(n / 10, w - 1);
    }
  }

  /** n in decimal without leading zeros (str(n)). */
  function NatStr(n: nat): (r: string)
    ensures r != [] && AllDigits(r)
    decreases n
  {
    if n < 10 then [(('0' as int) + n) as char] else NatStr(n / 10) + [(('0' as int) + n % 10) as char]
  }

  lemma {:induction false} NatStrRoundTrip(n: nat)
    ensures DigitsValue(NatStr(n)) == n
  {
    if n >= 10 {
      var s := NatStr(n);
      assert s[..|s| - 1] == NatStr(n / 10);
      NatStrRoundTrip(n / 10);
    }
  }

  // ---------------------------------------------------------------------
  // Scanning, as regular-expression matching does it
  // ---------------------------------------------------------------------

  /** pat occurs in s at position p. */
  predicate StartsAt(s: string, p: nat, pat: string) {
    p + |pat| <= |s| && s[p..p + |pat|] == pat
  }

  /** The end of the whitespace run that starts at i (a greedy \s*). */
  function SkipSpace(s: string, i: nat): (r: nat)
    requires i <= |s|
    ensures i <= r <= |s| && (r == |s| || !IsSpace(s[r]))
    ensures forall j :: i <= j < r ==> IsSpace(s[j])
    decreases |s| - i
  {
    if i < |s| && IsSpace(s[i]) then SkipSpace(s, i + 1) else i
  }

  /** The end of the run of ASCII digits that starts at i (a greedy \d*). */
  function DigitSpan(s: string, i: nat): (r: nat)
    requires i <= |s|
    ensures i <= r <= |s| && (r == |s| || !IsDigit(s[r]))
    ensures forall j :: i <= j < r ==> IsDigit(s[j])
    decreases |s| - i
  {
    if i < |s| && IsDigit(s[i]) then DigitSpan(s, i + 1) else i
  }

  /** The end of the run of characters other than c that starts at i (a
      greedy [^c]*). */
  function SpanNot(s: string, i: nat, c: char): (r: nat)
    requires i <= |s|
    ensures i <= r <= |s| && (r == |s| || s[r] == c)
    ensures forall j :: i <= j < r ==> s[j] != c
    decreases |s| - i
  {
    if i < |s| && s[i] != c then SpanNot(s, i + 1, c) else i
  }

  /** The leftmost position at or after p where the matcher `at` succeeds:
      how re.search and the first result of re.findall pick their match. */
  function Leftmost<T>(s: string, p: nat, at: (string, nat) -> Option<T>): (r: Option<nat>)
    ensures r.Some? ==> p <= r.value <= |s| && at(s, r.value).Some?
    ensures r.Some? ==> forall j :: p <= j < r.value ==> at(s, j).None?
    ensures r.None? ==> forall j :: p <= j <= |s| ==> at(s, j).None?
    decreases |s| + 1 - p
  {
    if p > |s| then None
    else if at(s, p).Some? then Some(p)
    else Leftmost(s, p + 1, at)
  }

  /** Every match `at` finds ends after the position it was tried at. */
  ghost predicate Advances<T>(s: string, at: (string, nat) -> Option<T>, endOf: T -> nat) {
    forall q: nat :: at(s, q).Some? ==> q < endOf(at(s, q).value)
  }

  /** re.findall from p on, `at` trying the pattern at one position and
      endOf giving where a match ends: each search resumes where the
      previous match ended. */
  function FindAll<T>(s: string, p: nat, at: (string, nat) -> Option<T>, endOf: T -> nat): seq<T>
    requires Advances(s, at, endOf)
    decreases |s| + 1 - p
  {
    if p > |s| then []
    else
      match at(s, p)
      case Some(m) => [m] + FindAll(s, endOf(m), at, endOf)
      case None => FindAll(s, p + 1, at, endOf)
  }

  /** Where the search for match k resumes: at p for the first match,
      else where match k - 1 ended. */
  function ResumeAt<T>(ms: seq<T>, k: nat, p: nat, endOf: T -> nat): nat
    requires k <= |ms|
  {
    if k == 0 then p else endOf(ms[k - 1])
  }

  /** FindAll is re.findall: match k is what `at` finds at the leftmost
      position where it matches from where the search resumes, and after
      the last match `at` matches nowhere; so no match is missed and no
      two matches overlap. */
  lemma {:induction false} FindAllLeftmost<T>(s: string, p: nat, at: (string, nat) -> Option<T>, endOf: T -> nat)
    requires Advances(s, at, endOf)
    ensures var ms := FindAll(s, p, at, endOf);
      forall k :: 0 <= k < |ms| ==>
        Leftmost(s, ResumeAt(ms, k, p, endOf), at).Some? &&
        at(s, Leftmost(s, ResumeAt(ms, k, p, endOf), at).value) == Some(ms[k])
    ensures var ms := FindAll(s, p, at, endOf);
      Leftmost(s, ResumeAt(ms, |ms|, p, endOf), at).None?
    decreases |s| + 1 - p
  {
    var ms := FindAll(s, p, at, endOf);
    if p <= |s| {
      match at(s, p)
      case Some(m) =>
        var q := endOf(m);
        var rest := FindAll(s, q, at, endOf);
        FindAllLeftmost(s, q, at, endOf);
        assert ms == [m] + rest;
        assert Leftmost(s, p, at) == Some(p);
        forall k | 0 < k <= |ms| ensures ResumeAt(ms, k, p, endOf) == ResumeAt(rest, k - 1, q, endOf) {
          if k > 1 { assert ms[k - 1] == rest[k - 2]; }
        }
        forall k | 0 < k < |ms| ensures ms[k] == rest[k - 1] { }
      case None =>
        var rest := FindAll(s, p + 1, at, endOf);
        FindAllLeftmost(s, p + 1, at, endOf);
        assert ms == rest;
        assert Leftmost(s, p, at) == Leftmost(s, p + 1, at);
    }
  }

  /** m is what `at` finds at some position from p on, before m's end. */
  ghost predicate FoundFrom<T>(s: string, p: nat, m: T, at: (string, nat) -> Option<T>, endOf: T -> nat) {
    exists q: nat :: p <= q < endOf(m) && at(s, q) == Some(m)
  }

  /** Every match FindAll returns is found by `at` between where the
      search resumed and the match's own end, so the matches come in
      order without overlapping. */
  lemma FindAllSound<T>(s: string, p: nat, at: (string, nat) -> Option<T>, endOf: T -> nat)
    requires Advances(s, at, endOf)
    ensures var ms := FindAll(s, p, at, endOf);
      forall k :: 0 <= k < |ms| ==> FoundFrom(s, ResumeAt(ms, k, p, endOf), ms[k], at, endOf)
    ensures var ms := FindAll(s, p, at, endOf);
      forall k :: 0 < k < |ms| ==> endOf(ms[k - 1]) < endOf(ms[k])
  {
    var ms := FindAll(s, p, at, endOf);
    FindAllLeftmost(s, p, at, endOf);
    forall k | 0 <= k < |ms| ensures FoundFrom(s, ResumeAt(ms, k, p, endOf), ms[k], at, endOf) {
      var q := Leftmost(s, ResumeAt(ms, k, p, endOf), at).value;
      assert at(s, q).Some?;
    }
    forall k | 0 < k < |ms| ensures endOf(ms[k - 1]) < endOf(ms[k]) {
      var q := Leftmost(s, ResumeAt(ms, k, p, endOf), at).value;
      assert at(s, q).Some?;
    }
  }

  /** The last index of c in s, or None (str.rfind). */
  function LastIndexOf(s: string, c: char): (r: Option<nat>)
    ensures r.None? <==> c !in s
    ensures r.Some? ==> r.value < |s| && s[r.value] == c && c !in s[r.value + 1..]
  {
    if s == [] then None
    else if s[|s| - 1] == c then Some(|s| - 1)
    else
      var k := LastIndexOf(s[..|s| - 1], c);
      assert s == s[..|s| - 1] + [s[|s| - 1]];
      if k.None? then None
      else
        assert s[k.value + 1..] == s[..|s| - 1][k.value + 1..] + [s[|s| - 1]];
        k
  }
}
