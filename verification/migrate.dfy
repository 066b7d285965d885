/** The folder migration (migrate_folders.py:12-134): the spreadsheets give
    a table from release titles to dates, and every download folder named
    "<date>_<title>" is renamed to carry the table's date for its title
    (or at least a date written with '-'), merging into a folder that
    already has the new name. */
module Migrate {
  import opened Text
  import opened Utils
  import opened Attachment

  // ---------------------------------------------------------------------
  // The title table (migrate_folders.py:18-48)
  // ---------------------------------------------------------------------

  /** A datetime value pandas read from a cell; it is always a real date. */
  type Timestamp = d: Date | ValidDate(d) witness Date(1, 1, 1)

  /** The 등록일 cell: a datetime, pandas' NaT (an empty datetime cell,
      which passes the datetime check but has no strftime), or any other
      value as its str(). */
  datatype DateCell = AtTime(when: Timestamp) | NotATime | Shown(text: string)

  /** A spreadsheet row: str() of the 제목 cell, and the 등록일 cell. */
  datatype Row = Row(title: string, date: DateCell)

  /** A file of the data folder: its name and its rows, None when
      read_excel fails on it. */
  datatype Sheet = Sheet(name: string, rows: Option<seq<Row>>)

  /** The title table: (title, date) pairs in the dictionary's insertion
      order. */
  type Table = seq<(string, string)>

  predicate EndsWith(s: string, p: string) {
    |p| <= |s| && s[|s| - |p|..] == p
  }

  /** The files read: spreadsheets that are not test output. */
  predicate Wanted(name: string) {
    EndsWith(name, ".xlsx") && !EndsWith(name, "_test.xlsx")
  }

  /** The date text of a cell: strftime("%Y-%m-%d") of a datetime,
      normalize_date of anything else. */
  function CellDate(c: DateCell): string {
    match c
    case AtTime(d) => IsoFormat(d)
    case NotATime => ""  // never asked: the row loop stops at such a cell
    case Shown(t) => NormalizeDate(t)
  }

  /** The rows a sheet contributes: those before its first NaT date cell.
      strftime raises on NaT, and the except clause around the row loop
      ends the sheet there, keeping what the earlier rows assigned. */
  function RowsRead(rows: seq<Row>): (r: seq<Row>)
    ensures |r| <= |rows| && r == rows[..|r|]
    ensures forall i :: 0 <= i < |r| ==> !r[i].date.NotATime?
    ensures |r| < |rows| ==> rows[|r|].date.NotATime?
    decreases |rows|
  {
    if rows == [] || rows[0].date.NotATime? then []
    else [rows[0]] + RowsRead(rows[1..])
  }

  /** The key of a title: stripped, without forbidden characters, stripped
      again. */
  function TitleKey(title: string): (r: string)
    ensures Strip(Sanitize(r)) == r
  {
    CleanNameIdempotent(Strip(title));
    Strip(Sanitize(Strip(title)))
  }

  /** The entry a row contributes, with dateOf giving the date text of a
      cell: none when the date text is empty. */
  function RowEntry(row: Row, dateOf: DateCell -> string): seq<(string, string)> {
    var date := dateOf(row.date);
    if date == "" then [] else [(TitleKey(row.title), date)]
  }

  /** The entries of the rows, in order. */
  function RowEntries(rows: seq<Row>, dateOf: DateCell -> string): seq<(string, string)>
    decreases |rows|
  {
    if rows == [] then []
    else RowEntries(rows[..|rows| - 1], dateOf) + RowEntry(rows[|rows| - 1], dateOf)
  }

  /** The entries of a sheet: none when it is not read or fails to load. */
  function SheetEntries(f: Sheet, dateOf: DateCell -> string): seq<(string, string)> {
    if Wanted(f.name) && f.rows.Some? then RowEntries(RowsRead(f.rows.value), dateOf) else []
  }

  /** The entries of the sheets, in the order the files are listed. */
  function Entries(files: seq<Sheet>, dateOf: DateCell -> string): seq<(string, string)>
    decreases |files|
  {
    if files == [] then []
    else Entries(files[..|files| - 1], dateOf) + SheetEntries(files[|files| - 1], dateOf)
  }

  /** The position of key k in the table. */
  function KeyIndex(t: Table, k: string): (r: Option<nat>)
    ensures r.None? <==> forall i :: 0 <= i < |t| ==> t[i].0 != k
    ensures r.Some? ==> r.value < |t| && t[r.value].0 == k
    decreases |t|
  {
    if t == [] then None
    else if t[0].0 == k then Some(0)
    else
      match KeyIndex(t[1..], k)
      case None => None
      case Some(i) => Some(i + 1)
  }

  /** table[k] = v: an existing key keeps its place and takes the new
      value; a new key goes last. */
  function Put(t: Table, k: string, v: string): Table {
    match KeyIndex(t, k)
    case Some(i) => t[i := (k, v)]
    case None => t + [(k, v)]
  }

  /** The assignments of es, one after the other. */
  function PutAll(t: Table, es: seq<(string, string)>): Table
    decreases |es|
  {
    if es == [] then t
    else Put(PutAll(t, es[..|es| - 1]), es[|es| - 1].0, es[|es| - 1].1)
  }

  /** The table built from the sheets. */
  function TitleTable(files: seq<Sheet>, dateOf: DateCell -> string): Table {
    PutAll([], Entries(files, dateOf))
  }

  /** The nested loop over the sheets and their rows, with dateOf reading
      the date text of a cell. */
  method LoadTitleTable(files: seq<Sheet>, dateOf: DateCell -> string) returns (table: Table)
    ensures table == TitleTable(files, dateOf)
  {
    table := [];
    ghost var es: seq<(string, string)> := [];
    var i := 0;
    while i < |files|
      invariant i <= |files|
      invariant es == Entries(files[..i], dateOf) && table == PutAll([], es)
    {
      EntriesSnoc(files, i, dateOf);
      var f := files[i];
      if Wanted(f.name) && f.rows.Some? {
        var rows := f.rows.value;
        ghost var read := RowsRead(rows);
        ghost var before := es;
        assert before + RowEntries(read[..0], dateOf) == before;
        var j := 0;
        while j < |rows|
          invariant j <= |read|
          invariant es == before + RowEntries(read[..j], dateOf) && table == PutAll([], es)
        {
          if rows[j].date.NotATime? {
            RowsReadEnd(rows, j);
            break;  // strftime raises; the rest of the sheet is not read
          }
          RowsReadAt(rows, j);
          RowEntriesSnoc(before, read, j, dateOf);
          var date := dateOf(rows[j].date);
          if date != "" {
            var key := TitleKey(rows[j].title);
            PutAllSnoc([], es, (key, date));
            table := Put(table, key, date);
            es := es + [(key, date)];
          }
          j := j + 1;
        }
        if j == |rows| {
          RowsReadEnd(rows, j);
        }
        assert read[..|read|] == read;
      }
      i := i + 1;
    }
    assert files[..|files|] == files;
  }

  lemma RowsReadAt(rows: seq<Row>, j: nat)
    requires j < |rows| && j <= |RowsRead(rows)| && !rows[j].date.NotATime?
    ensures j < |RowsRead(rows)| && RowsRead(rows)[j] == rows[j]
  {
  }

  lemma RowsReadEnd(rows: seq<Row>, j: nat)
    requires j <= |RowsRead(rows)| && j <= |rows|
    requires j == |rows| || rows[j].date.NotATime?
    ensures j == |RowsRead(rows)|
  {
  }

  lemma EntriesSnoc(files: seq<Sheet>, i: nat, dateOf: DateCell -> string)
    requires i < |files|
    ensures Entries(files[..i + 1], dateOf) == Entries(files[..i], dateOf) + SheetEntries(files[i], dateOf)
  {
    assert files[..i + 1][..i] == files[..i];
  }

  lemma RowEntriesSnoc(before: seq<(string, string)>, rows: seq<Row>, j: nat, dateOf: DateCell -> string)
    requires j < |rows|
    ensures before + RowEntries(rows[..j + 1], dateOf) ==
            before + RowEntries(rows[..j], dateOf) + RowEntry(rows[j], dateOf)
  {
    assert rows[..j + 1][..j] == rows[..j];
  }

  lemma PutAllSnoc(t: Table, es: seq<(string, string)>, e: (string, string))
    ensures PutAll(t, es + [e]) == Put(PutAll(t, es), e.0, e.1)
  {
    assert (es + [e])[..|es|] == es;
  }

  // ---------------------------------------------------------------------
  // What the title table holds
  // ---------------------------------------------------------------------

  /** No key occurs twice. */
  predicate UniqueKeys(t: Table) {
    forall i, j :: 0 <= i < j < |t| ==> t[i].0 != t[j].0
  }

  /** Some entry has key k. */
  ghost predicate HasKey(es: seq<(string, string)>, k: string) {
    exists i :: 0 <= i < |es| && es[i].0 == k
  }

  /** Entry j is the last entry with its key. */
  predicate LastEntry(es: seq<(string, string)>, j: int) {
    0 <= j < |es| && forall i :: j < i < |es| ==> es[i].0 != es[j].0
  }

  /** The value of key k in the table. */
  function Lookup(t: Table, k: string): Option<string> {
    match KeyIndex(t, k)
    case None => None
    case Some(i) => Some(t[i].1)
  }

  /** One assignment: the keys stay unique and keep their places, a new
      key goes last, key k holds v, and every other key keeps its value. */
  lemma PutSpec(t: Table, k: string, v: string)
    requires UniqueKeys(t)
    ensures UniqueKeys(Put(t, k, v))
    ensures |t| <= |Put(t, k, v)| <= |t| + 1
    ensures forall i :: 0 <= i < |t| ==> Put(t, k, v)[i].0 == t[i].0
    ensures |Put(t, k, v)| == |t| + 1 ==> Put(t, k, v)[|t|].0 == k
    ensures Lookup(Put(t, k, v), k) == Some(v)
    ensures forall k' :: k' != k ==> Lookup(Put(t, k, v), k') == Lookup(t, k')
  {
    var q := Put(t, k, v);
    match KeyIndex(t, k)
    case Some(x) =>
      assert q == t[x := (k, v)];
      assert forall i :: 0 <= i < |q| ==> q[i].0 == t[i].0;
      var y := KeyIndex(q, k).value;
      assert q[y].0 == k == t[x].0;
      forall k' | k' != k ensures Lookup(q, k') == Lookup(t, k') {
        if KeyIndex(t, k').Some? {
          var z := KeyIndex(t, k').value;
          assert q[z] == t[z];
          assert KeyIndex(q, k').value == z;
        }
      }
    case None =>
      assert q == t + [(k, v)];
      assert q[|t|].0 == k;
      var y := KeyIndex(q, k).value;
      assert y == |t|;
      forall k' | k' != k ensures Lookup(q, k') == Lookup(t, k') {
        if KeyIndex(t, k').Some? {
          var z := KeyIndex(t, k').value;
          assert q[z] == t[z];
          assert KeyIndex(q, k').value == z;
        } else {
          assert forall i :: 0 <= i < |q| ==> q[i].0 != k';
        }
      }
  }

  /** After the assignments the keys stay unique and keep their places,
      and every key is an old key or one assigned. */
  lemma {:induction false} PutAllKeys(t: Table, es: seq<(string, string)>)
    requires UniqueKeys(t)
    ensures UniqueKeys(PutAll(t, es))
    ensures |t| <= |PutAll(t, es)|
    ensures forall i :: 0 <= i < |t| ==> PutAll(t, es)[i].0 == t[i].0
    ensures forall i :: 0 <= i < |PutAll(t, es)| ==> HasKey(t, PutAll(t, es)[i].0) || HasKey(es, PutAll(t, es)[i].0)
    decreases |es|
  {
    if es != [] {
      var n := |es| - 1;
      var init := es[..n];
      var p := PutAll(t, init);
      PutAllKeys(t, init);
      PutSpec(p, es[n].0, es[n].1);
      var q := PutAll(t, es);
      assert q == Put(p, es[n].0, es[n].1);
      forall i | 0 <= i < |q| ensures HasKey(t, q[i].0) || HasKey(es, q[i].0) {
        if q[i].0 != es[n].0 {
          assert i < |p| && q[i].0 == p[i].0;
          if !HasKey(t, q[i].0) {
            var h :| 0 <= h < |init| && init[h].0 == q[i].0;
            assert es[h] == init[h];
          }
        }
      }
    }
  }

  /** After the assignments each key assigned holds the value of its last
      assignment, and every other key keeps its value. */
  lemma {:induction false} PutAllLast(t: Table, es: seq<(string, string)>)
    requires UniqueKeys(t)
    ensures forall j :: LastEntry(es, j) ==> Lookup(PutAll(t, es), es[j].0) == Some(es[j].1)
    ensures forall k :: !HasKey(es, k) ==> Lookup(PutAll(t, es), k) == Lookup(t, k)
    decreases |es|
  {
    if es != [] {
      var n := |es| - 1;
      var init := es[..n];
      var p := PutAll(t, init);
      PutAllLast(t, init);
      PutAllKeys(t, init);
      PutSpec(p, es[n].0, es[n].1);
      var q := PutAll(t, es);
      assert q == Put(p, es[n].0, es[n].1);
      forall j | LastEntry(es, j) ensures Lookup(q, es[j].0) == Some(es[j].1) {
        if j < n {
          var e := es[j];
          assert es[n].0 != e.0;
          assert init[j] == e;
          assert LastEntry(init, j) by {
            forall i | j < i < |init| ensures init[i].0 != e.0 { assert init[i] == es[i]; }
          }
          assert Lookup(p, e.0) == Some(e.1);
          assert Lookup(q, e.0) == Lookup(p, e.0);
        } else {
          assert j == n;
        }
      }
      forall k | !HasKey(es, k) ensures Lookup(q, k) == Lookup(t, k) {
        assert es[n].0 != k;
        forall h | 0 <= h < |init| ensures init[h].0 != k {
          assert es[h] == init[h];
        }
      }
    }
  }

  /** Every entry has a non-empty date. */
  lemma {:induction false} EntriesDated(files: seq<Sheet>, dateOf: DateCell -> string)
    ensures forall e :: e in Entries(files, dateOf) ==> e.1 != ""
    decreases |files|
  {
    if files != [] {
      var init := files[..|files| - 1];
      EntriesDated(init, dateOf);
      var f := files[|files| - 1];
      if Wanted(f.name) && f.rows.Some? {
        RowEntriesDated(RowsRead(f.rows.value), dateOf);
      }
    }
  }

  lemma {:induction false} RowEntriesDated(rows: seq<Row>, dateOf: DateCell -> string)
    ensures forall e :: e in RowEntries(rows, dateOf) ==> e.1 != ""
    decreases |rows|
  {
    if rows != [] {
      RowEntriesDated(rows[..|rows| - 1], dateOf);
    }
  }

  /** The title table: no key twice; every key is the key of a row with a
      non-empty date text, and holds a non-empty date; a key holds the date
      of its last row, a later file and a later row overriding an earlier
      one. */
  lemma TitleTableSpec(files: seq<Sheet>, dateOf: DateCell -> string)
    ensures UniqueKeys(TitleTable(files, dateOf))
    ensures forall i :: 0 <= i < |TitleTable(files, dateOf)| ==>
              TitleTable(files, dateOf)[i].1 != "" && HasKey(Entries(files, dateOf), TitleTable(files, dateOf)[i].0)
    ensures forall j :: LastEntry(Entries(files, dateOf), j) ==>
              Lookup(TitleTable(files, dateOf), Entries(files, dateOf)[j].0) == Some(Entries(files, dateOf)[j].1)
  {
    var es := Entries(files, dateOf);
    PutAllKeys([], es);
    PutAllLast([], es);
    EntriesDated(files, dateOf);
    var t := TitleTable(files, dateOf);
    forall i | 0 <= i < |t| ensures t[i].1 != "" && HasKey(es, t[i].0) {
      assert HasKey(es, t[i].0);
      var h :| 0 <= h < |es| && es[h].0 == t[i].0;
      var j := LastOf(es, h);
      var x := KeyIndex(t, es[j].0).value;
      assert x == i;
    }
  }

  /** The last entry with the key of entry h. */
  lemma {:induction false} LastOf(es: seq<(string, string)>, h: nat) returns (j: nat)
    requires h < |es|
    ensures h <= j && LastEntry(es, j) && es[j].0 == es[h].0
    decreases |es| - h
  {
    if forall i :: h < i < |es| ==> es[i].0 != es[h].0 {
      j := h;
    } else {
      var i :| h < i < |es| && es[i].0 == es[h].0;
      j := LastOf(es, i);
    }
  }

  // ---------------------------------------------------------------------
  // The new name of a folder (migrate_folders.py:61-99)
  // ---------------------------------------------------------------------

  /** name.split('_', 1): None when there is no '_'; otherwise the date
      part, which is the text before the first '_', and the title part,
      which is the rest stripped. */
  function SplitFolderName(name: string): (r: Option<(string, string)>)
    ensures r.None? <==> '_' !in name
    ensures r.Some? ==> '_' !in r.value.0 && |r.value.0| < |name| &&
                        name[..|r.value.0|] == r.value.0 && name[|r.value.0|] == '_' &&
                        r.value.1 == Strip(name[|r.value.0| + 1..])
  {
    match IndexOf(name, '_')
    case None => None
    case Some(i) => Some((name[..i], Strip(name[i + 1..])))
  }

  /** The match rule between a table key and the title part of a folder:
      the key, cleaned again, cut to 30 characters and stripped, equals the
      title part; or the cleaned key starts with the title part; or the
      title part starts with the cleaned key's first len(title part)
      characters. */
  predicate Matches(fullTitle: string, titlePart: string) {
    var clean := Strip(Sanitize(fullTitle));
    Strip(Take(clean, 30)) == titlePart || StartsWith(clean, titlePart) ||
    StartsWith(titlePart, Take(clean, |titlePart|))
  }

  /** For a clean key the rule reads: the cut key is the title part, or
      one of the two is a prefix of the other; so an empty title part
      matches every key. */
  lemma MatchesSpec(key: string, titlePart: string)
    requires Strip(Sanitize(key)) == key
    ensures Matches(key, titlePart) <==>
              Strip(Take(key, 30)) == titlePart || StartsWith(key, titlePart) || StartsWith(titlePart, key)
    ensures Matches(key, "")
  {
    if |titlePart| <= |key| {
      assert Take(key, |titlePart|) == key[..|titlePart|];
    } else {
      assert Take(key, |titlePart|) == key;
    }
    assert Take(key, 0) == [];
  }

  /** The date of the first key in table order that matches the title
      part. */
  function FirstMatch(t: Table, titlePart: string): Option<string>
    decreases |t|
  {
    if t == [] then None
    else if Matches(t[0].0, titlePart) then Some(t[0].1)
    else FirstMatch(t[1..], titlePart)
  }

  /** The search over the table, stopping at the first match. */
  method FindDate(table: Table, titlePart: string) returns (matched: Option<string>)
    ensures matched == FirstMatch(table, titlePart)
  {
    matched := None;
    var i := 0;
    while i < |table|
      invariant i <= |table|
      invariant FirstMatch(table, titlePart) == FirstMatch(table[i..], titlePart)
    {
      assert table[i..][1..] == table[i + 1..];
      var clean := Strip(Sanitize(table[i].0));
      var trunc := Strip(Take(clean, 30));
      if trunc == titlePart || StartsWith(clean, titlePart) || StartsWith(titlePart, Take(clean, |titlePart|)) {
        matched := Some(table[i].1);
        break;
      }
      i := i + 1;
    }
  }

  /** Entry i is the first entry whose key matches. */
  predicate FirstMatchAt(t: Table, titlePart: string, i: int) {
    0 <= i < |t| && Matches(t[i].0, titlePart) &&
    forall j :: 0 <= j < i ==> !Matches(t[j].0, titlePart)
  }

  /** The search finds nothing exactly when no key matches, and otherwise
      the date of the first key that matches. */
  lemma {:induction false} FirstMatchSpec(t: Table, titlePart: string)
    ensures FirstMatch(t, titlePart).None? <==> forall i :: 0 <= i < |t| ==> !Matches(t[i].0, titlePart)
    ensures forall i :: FirstMatchAt(t, titlePart, i) ==> FirstMatch(t, titlePart) == Some(t[i].1)
    ensures FirstMatch(t, titlePart).Some? ==> exists i :: FirstMatchAt(t, titlePart, i)
    decreases |t|
  {
    if t != [] && !Matches(t[0].0, titlePart) {
      var tail := t[1..];
      FirstMatchSpec(tail, titlePart);
      forall i | FirstMatchAt(t, titlePart, i) ensures FirstMatch(t, titlePart) == Some(t[i].1) {
        assert i > 0 && tail[i - 1] == t[i];
        assert FirstMatchAt(tail, titlePart, i - 1) by {
          forall j | 0 <= j < i - 1 ensures !Matches(tail[j].0, titlePart) {
            assert tail[j] == t[j + 1];
          }
        }
      }
      if FirstMatch(t, titlePart).Some? {
        var i :| FirstMatchAt(tail, titlePart, i);
        assert FirstMatchAt(t, titlePart, i + 1) by {
          assert t[i + 1] == tail[i];
          forall j | 0 <= j < i + 1 ensures !Matches(t[j].0, titlePart) {
            if j > 0 { assert t[j] == tail[j - 1]; }
          }
        }
      }
      if forall i :: 0 <= i < |tail| ==> !Matches(tail[i].0, titlePart) {
        forall i | 0 <= i < |t| ensures !Matches(t[i].0, titlePart) {
          if i > 0 { assert t[i] == tail[i - 1]; }
        }
      }
    } else if t != [] {
      assert FirstMatchAt(t, titlePart, 0);
    }
  }

  /** str.replace of one character by another. */
  function ReplaceChar(s: string, a: char, b: char): (r: string)
    ensures |r| == |s|
    ensures forall i :: 0 <= i < |s| ==> r[i] == if s[i] == a then b else s[i]
    decreases |s|
  {
    if s == [] then [] else [if s[0] == a then b else s[0]] + ReplaceChar(s[1..], a, b)
  }

  /** Replacing '.' by '-' introduces no '_', and doing it again changes
      nothing. */
  lemma ReplaceDotsStable(s: string)
    ensures '_' !in s ==> '_' !in ReplaceChar(s, '.', '-')
    ensures ReplaceChar(ReplaceChar(s, '.', '-'), '.', '-') == ReplaceChar(s, '.', '-')
  {
    var r := ReplaceChar(s, '.', '-');
    var rr := ReplaceChar(r, '.', '-');
    assert forall i :: 0 <= i < |r| ==> rr[i] == r[i];
    if '_' !in s {
      forall i | 0 <= i < |r| ensures r[i] != '_' { assert s[i] != '_'; }
    }
  }

  /** The new date part: the date the table gives for the title part, or
      else the old date part with '.' replaced by '-'. */
  function NewDatePart(table: Table, datePart: string, titlePart: string): string {
    var matched := FirstMatch(table, titlePart);
    if matched.Some? && matched.value != "" then matched.value else ReplaceChar(datePart, '.', '-')
  }

  /** The new folder name; None when the name has no '_'. */
  function NewName(table: Table, name: string): Option<string> {
    match SplitFolderName(name)
    case None => None
    case Some(parts) => Some(NewDatePart(table, parts.0, parts.1) + "_" + parts.1)
  }

  /** The first '_' of date + "_" + rest is the one after the date when
      the date has none. */
  lemma SplitAfterDate(date: string, rest: string)
    requires '_' !in date
    ensures SplitFolderName(date + "_" + rest) == Some((date, Strip(rest)))
  {
    var n := date + "_" + rest;
    assert n[|date|] == '_';
    assert forall j :: 0 <= j < |date| ==> n[j] == date[j];
    var i := IndexOf(n, '_').value;
    assert n[..|date| + 1][|date|] == '_';
    assert i == |date|;
    assert n[..|date|] == date && n[|date| + 1..] == rest;
  }

  /** With a table whose dates hold no '_', a date part without '_' gets a
      new date part without '_' that is its own new date part. */
  lemma NewDatePartStable(table: Table, datePart: string, titlePart: string)
    requires forall i :: 0 <= i < |table| ==> '_' !in table[i].1
    requires '_' !in datePart
    ensures '_' !in NewDatePart(table, datePart, titlePart)
    ensures NewDatePart(table, NewDatePart(table, datePart, titlePart), titlePart) == NewDatePart(table, datePart, titlePart)
  {
    var matched := FirstMatch(table, titlePart);
    ReplaceDotsStable(datePart);
    if matched.Some? {
      FirstMatchSpec(table, titlePart);
      var i :| FirstMatchAt(table, titlePart, i);
      assert matched.value == table[i].1;
    }
  }

  /** A table whose dates hold no '_' gives each folder a name that is its
      own new name: a second migration leaves the folder alone. */
  lemma NewNameIdempotent(table: Table, name: string)
    requires forall i :: 0 <= i < |table| ==> '_' !in table[i].1
    requires NewName(table, name).Some?
    ensures NewName(table, NewName(table, name).value) == NewName(table, name)
  {
    var parts := SplitFolderName(name).value;
    NewDatePartStable(table, parts.0, parts.1);
    var d := NewDatePart(table, parts.0, parts.1);
    SplitAfterDate(d, parts.1);
    StripIdempotent(name[|parts.0| + 1..]);
  }

  /** A folder named by the scraper from a date without '_' splits back
      into that date and the folder's title part. */
  lemma FolderNameSplits(date: string, title: string)
    requires '_' !in date
    ensures SplitFolderName(FolderName(date, title)) == Some((date, FolderTitle(title)))
  {
    var ft := FolderTitle(title);
    assert FolderName(date, title) == date + "_" + ft;
    SplitAfterDate(date, ft);
    StripNoOp(ft);
  }

  /** For a title without whitespace at its ends, the key is the
      sanitised title stripped. */
  lemma TitleKeyOfStripped(title: string)
    requires NoEdgeSpace(title)
    ensures TitleKey(title) == Strip(Sanitize(title))
  {
    StripNoOp(title);
  }

  /** The folder title is a prefix of the stripped sanitised title. */
  lemma FolderTitlePrefix(title: string)
    requires NoEdgeSpace(title)
    ensures StartsWith(Strip(Sanitize(title)), FolderTitle(title))
  {
    var sane := Sanitize(title);
    var n := if 30 < |sane| then 30 else |sane|;
    assert Take(sane, 30) == sane[..n];
    StripPrefix(sane, n);
  }

  /** So that title part matches the title's key. */
  lemma FolderTitleMatches(title: string)
    requires NoEdgeSpace(title)
    ensures Matches(TitleKey(title), FolderTitle(title))
  {
    TitleKeyOfStripped(title);
    FolderTitlePrefix(title);
    MatchesSpec(TitleKey(title), FolderTitle(title));
  }

  // ---------------------------------------------------------------------
  // Renaming and merging the folders (migrate_folders.py:53-134)
  // ---------------------------------------------------------------------

  /** An entry of the download folder: a file, or a folder with its files
      (name to contents). */
  datatype Entry = File(data: string) | Folder(files: map<string, string>)

  /** The download folder: entry names to entries. */
  type Listing = map<string, Entry>

  /** The loop over the files of a folder merged into another: each file is
      moved, replacing a file of the same name. Afterwards the folder is
      empty, the target holds every file moved with its contents, and the
      target's other files are unchanged. */
  method MoveFiles(src: map<string, string>, dst: map<string, string>)
    returns (left: map<string, string>, moved: map<string, string>)
    ensures left == map[]
    ensures forall f :: f in moved <==> f in src || f in dst
    ensures forall f :: f in src ==> moved[f] == src[f]
    ensures forall f :: f in dst && f !in src ==> moved[f] == dst[f]
  {
    left, moved := src, dst;
    var items := src.Keys;
    while items != {}
      invariant items <= src.Keys && left.Keys == items
      invariant forall f :: f in left ==> left[f] == src[f]
      invariant forall f :: f in moved <==> f in dst || (f in src && f !in items)
      invariant forall f :: f in src && f !in items ==> moved[f] == src[f]
      invariant forall f :: f in dst && (f !in src || f in items) ==> moved[f] == dst[f]
      decreases |items|
    {
      var item :| item in items;
      if item in moved {
        moved := moved - {item};
      }
      moved := moved[item := left[item]];
      left := left - {item};
      items := items - {item};
    }
  }

  /** One pass of the folder loop for the entry name, whose new name is
      target (None: the name has no '_'). Nothing happens unless name is a
      folder and target a different name. Then the folder moves into an
      existing folder by merging (the moved files win); onto an existing
      file by failing to move any file, so it goes only when it is empty;
      and otherwise it is renamed. The flag says the folder was renamed or
      merged. */
  function Visit(dir: Listing, name: string, target: Option<string>): (Listing, bool) {
    if name !in dir || !dir[name].Folder? || target.None? || target.value == name then (dir, false)
    else if target.value in dir then
      match dir[target.value]
      case Folder(tf) => ((dir - {name})[target.value := Folder(tf + dir[name].files)], true)
      case File(_) => if dir[name].files == map[] then (dir - {name}, true) else (dir, false)
    else ((dir - {name})[target.value := dir[name]], true)
  }

  /** The new names a title table gives. */
  function Renamer(table: Table): string -> Option<string> {
    name => NewName(table, name)
  }

  /** The folder loop over the names listed when it starts, with rename
      giving each name's new name. */
  function MigrateAll(rename: string -> Option<string>, names: seq<string>, dir: Listing): (Listing, nat)
    decreases |names|
  {
    if names == [] then (dir, 0)
    else
      var prev := MigrateAll(rename, names[..|names| - 1], dir);
      var step := Visit(prev.0, names[|names| - 1], rename(names[|names| - 1]));
      (step.0, prev.1 + if step.1 then 1 else 0)
  }

  /** The loop one name further. */
  lemma MigrateAllStep(rename: string -> Option<string>, names: seq<string>, i: nat, dir: Listing)
    requires i < |names|
    ensures var prev := MigrateAll(rename, names[..i], dir);
            var step := Visit(prev.0, names[i], rename(names[i]));
            MigrateAll(rename, names[..i + 1], dir) == (step.0, prev.1 + if step.1 then 1 else 0)
  {
    assert names[..i + 1][..i] == names[..i];
  }

  /** rename gives the new names of the table. The quantifier fires only
      on NewName terms, so a proof about rename does not unfold NewName
      unless it asks for it. */
  ghost predicate Renames(rename: string -> Option<string>, table: Table) {
    forall name {:trigger NewName(table, name)} :: rename(name) == NewName(table, name)
  }

  lemma RenamerRenames(table: Table)
    ensures Renames(Renamer(table), table)
  {
  }

  /** The new name of a folder: None when the name has no '_'. */
  method ComputeNewName(table: Table, name: string, ghost rename: string -> Option<string>)
    returns (target: Option<string>)
    requires Renames(rename, table)
    ensures target == rename(name)
  {
    var parts := SplitFolderName(name);
    if parts.None? {
      target := None;
    } else {
      var datePart := parts.value.0;
      var titlePart := parts.value.1;
      var matched := FindDate(table, titlePart);
      var newDate := if matched.Some? && matched.value != "" then matched.value else ReplaceChar(datePart, '.', '-');
      target := Some(newDate + "_" + titlePart);
    }
    assert target == NewName(table, name);
  }

  /** The move of one folder to its new name. */
  method MoveFolder(dir: Listing, name: string, newName: string) returns (result: Listing, counted: bool)
    requires name in dir && dir[name].Folder? && newName != name
    ensures (result, counted) == Visit(dir, name, Some(newName))
  {
    if newName in dir {
      match dir[newName]
      case Folder(tf) =>
        var left, moved := MoveFiles(dir[name].files, tf);
        assert moved == tf + dir[name].files;
        // the folder is empty now, so removing it succeeds
        result := (dir[name := Folder(left)][newName := Folder(moved)]) - {name};
        assert result == (dir - {name})[newName := Folder(tf + dir[name].files)];
        counted := true;
      case File(_) =>
        // no file can be moved under a file; removing the folder succeeds
        // only when it is empty
        if dir[name].files == map[] {
          result, counted := dir - {name}, true;
        } else {
          result, counted := dir, false;
        }
    } else {
      result, counted := (dir - {name})[newName := dir[name]], true;
    }
  }

  /** The folder loop with a title table, rename giving its new names:
      each entry that is a folder and whose new name differs is renamed,
      or merged into the folder of the new name. */
  method MigrateWith(table: Table, names: seq<string>, dir: Listing, ghost rename: string -> Option<string>)
    returns (result: Listing, count: nat)
    requires Renames(rename, table)
    ensures (result, count) == MigrateAll(rename, names, dir)
  {
    result, count := dir, 0;
    var i := 0;
    while i < |names|
      invariant i <= |names|
      invariant (result, count) == MigrateAll(rename, names[..i], dir)
    {
      var name := names[i];
      MigrateAllStep(rename, names, i, dir);
      if name in result && result[name].Folder? {
        var target := ComputeNewName(table, name, rename);
        if target.Some? && target.value != name {
          var counted;
          result, counted := MoveFolder(result, name, target.value);
          if counted {
            count := count + 1;
          }
        }
      }
      i := i + 1;
    }
    assert names[..|names|] == names;
  }

  /** migrate_folders: the title table from the sheets, then the loop over
      the names the download folder listed, counting the folders renamed or
      merged. */
  method MigrateFolders(files: seq<Sheet>, names: seq<string>, dir: Listing)
    returns (result: Listing, count: nat)
    ensures (result, count) == MigrateAll(Renamer(TitleTable(files, CellDate)), names, dir)
  {
    var table := LoadTitleTable(files, CellDate);
    RenamerRenames(table);
    result, count := MigrateWith(table, names, dir, Renamer(table));
  }

  /** One pass changes the folder and the entry of its new name and
      nothing else; it counts exactly when the folder's name is gone; a
      pass that does not count changes nothing, and a folder whose name
      has no '_' or is already its new name is never touched; a merge
      counts and leaves the target with the folder's files (winning on a
      clash) and its own others. */
  lemma VisitSpec(dir: Listing, name: string, target: Option<string>)
    ensures Visit(dir, name, target).1 <==> name in dir && name !in Visit(dir, name, target).0
    ensures !Visit(dir, name, target).1 ==> Visit(dir, name, target).0 == dir
    ensures target.None? || target == Some(name) ==> !Visit(dir, name, target).1
    ensures forall x :: x != name && target != Some(x) ==>
              (x in Visit(dir, name, target).0 <==> x in dir) &&
              (x in dir ==> Visit(dir, name, target).0[x] == dir[x])
    ensures name in dir && dir[name].Folder? && target.Some? && target.value != name &&
            target.value in dir && dir[target.value].Folder? ==>
              var merged := Visit(dir, name, target).0[target.value].files;
              Visit(dir, name, target).1 &&
              (forall f :: f in merged <==> f in dir[name].files || f in dir[target.value].files) &&
              (forall f :: f in dir[name].files ==> merged[f] == dir[name].files[f]) &&
              (forall f :: f in dir[target.value].files && f !in dir[name].files ==> merged[f] == dir[target.value].files[f])
    ensures name in dir && dir[name].Folder? && target.Some? && target.value != name && target.value !in dir ==>
              Visit(dir, name, target).1 && target.value in Visit(dir, name, target).0 &&
              Visit(dir, name, target).0[target.value] == dir[name]
    ensures name in dir && dir[name].Folder? && target.Some? && target.value != name &&
            target.value in dir && dir[target.value].File? ==>
              (Visit(dir, name, target).1 <==> dir[name].files == map[]) &&
              (Visit(dir, name, target).1 ==> Visit(dir, name, target).0 == dir - {name}) &&
              target.value in Visit(dir, name, target).0 &&
              Visit(dir, name, target).0[target.value] == dir[target.value]
  {
  }

  /** Folder x is the new name of one of the listed names. */
  ghost predicate NewNameOf(rename: string -> Option<string>, names: seq<string>, x: string) {
    exists i :: 0 <= i < |names| && rename(names[i]) == Some(x)
  }

  /** Every entry after the loop was there before or is the new name of a
      listed folder, and the count is at most the number of names. */
  lemma {:induction false} MigrateAllSpec(rename: string -> Option<string>, names: seq<string>, dir: Listing)
    ensures MigrateAll(rename, names, dir).1 <= |names|
    ensures forall x :: x in MigrateAll(rename, names, dir).0 ==> x in dir || NewNameOf(rename, names, x)
    decreases |names|
  {
    if names != [] {
      var n := |names| - 1;
      var init := names[..n];
      MigrateAllSpec(rename, init, dir);
      var prev := MigrateAll(rename, init, dir);
      VisitSpec(prev.0, names[n], rename(names[n]));
      forall x | x in MigrateAll(rename, names, dir).0 ensures x in dir || NewNameOf(rename, names, x) {
        if rename(names[n]) != Some(x) && x !in dir {
          var i :| 0 <= i < |init| && rename(init[i]) == Some(x);
          assert names[i] == init[i];
        }
      }
    }
  }
}
