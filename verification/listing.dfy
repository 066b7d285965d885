/** A page of the press-release list (scraper.py:128-205): the dates the
    page's script assigns to the rows, and the de-duplicated (id, date)
    items read from the row links. */
module Listing {
  import opened Text
  import opened Utils

  // ---------------------------------------------------------------------
  // Dates from the page script (scraper.py:128-153)
  // ---------------------------------------------------------------------

  type DigitString = s: string | AllDigits(s)

  /** One match of the script pattern: the row index text, the date text,
      and where the match ends. */
  datatype ScriptMatch = ScriptMatch(index: DigitString, date: string, end: nat)

  /** The pattern \$\('#td_'\s*\+\s*'REG_DT'\s*\+\s*'_(\d+)'\)\.html\('([^']+)'\)
      tried at p. Every repetition in it is followed by a character it
      cannot consume, so the greedy reading is the only one. */
  function ScriptMatchAt(s: string, p: nat): (r: Option<ScriptMatch>)
    ensures r.Some? ==> p < r.value.end <= |s|
    ensures r.Some? ==> r.value.index != [] && r.value.date != [] && '\'' !in r.value.date
  {
    if !StartsAt(s, p, "$('#td_'") then None
    else
      var a := SkipSpace(s, p + 8);
      if !StartsAt(s, a, "+") then None
      else
        var b := SkipSpace(s, a + 1);
        if !StartsAt(s, b, "'REG_DT'") then None
        else
          var c := SkipSpace(s, b + 8);
          if !StartsAt(s, c, "+") then None
          else
            var d := SkipSpace(s, c + 1);
            if !StartsAt(s, d, "'_") then None
            else
              var e := DigitSpan(s, d + 2);
              if e == d + 2 || !StartsAt(s, e, "').html('") then None
              else
                var f := SpanNot(s, e + 9, '\'');
                if f == e + 9 || !StartsAt(s, f, "')") then None
                else Some(ScriptMatch(s[d + 2..e], s[e + 9..f], f + 2))
  }

  /** Where a script match ends. */
  function MatchEnd(m: ScriptMatch): nat {
    m.end
  }

  /** re.findall of the script pattern over s. */
  function ScriptMatches(s: string): seq<ScriptMatch> {
    FindAll(s, 0, ScriptMatchAt, MatchEnd)
  }

  /** re.findall of the script pattern: each match is the pattern matched
      at the leftmost position where it matches from the end of the
      previous match, so the matches do not overlap; after the last match
      the pattern matches nowhere, so none is missed. */
  lemma ScriptMatchesSound(s: string)
    ensures var ms := ScriptMatches(s);
      forall k :: 0 <= k < |ms| ==> FoundFrom(s, ResumeAt(ms, k, 0, MatchEnd), ms[k], ScriptMatchAt, MatchEnd)
    ensures var ms := ScriptMatches(s);
      forall k :: 0 <= k < |ms| ==>
        Leftmost(s, ResumeAt(ms, k, 0, MatchEnd), ScriptMatchAt).Some? &&
        ScriptMatchAt(s, Leftmost(s, ResumeAt(ms, k, 0, MatchEnd), ScriptMatchAt).value) == Some(ms[k])
    ensures var ms := ScriptMatches(s);
      Leftmost(s, ResumeAt(ms, |ms|, 0, MatchEnd), ScriptMatchAt).None?
  {
    FindAllSound(s, 0, ScriptMatchAt, MatchEnd);
    FindAllLeftmost(s, 0, ScriptMatchAt, MatchEnd);
  }

  /** The script the dates are read from must contain both markers. */
  predicate Marked(script: Option<string>) {
    script.Some? && Occurs("$('#td_'", script.value) && Occurs("REG_DT", script.value)
  }

  /** Script i is marked and no earlier one is. */
  predicate FirstMarked(scripts: seq<Option<string>>, i: int) {
    0 <= i < |scripts| && Marked(scripts[i]) && forall j :: 0 <= j < i ==> !Marked(scripts[j])
  }

  /** The first marked script, if any. */
  function TargetScript(scripts: seq<Option<string>>): (r: Option<string>)
    ensures r.Some? <==> exists i :: 0 <= i < |scripts| && Marked(scripts[i])
    ensures r.Some? ==> exists i :: FirstMarked(scripts, i) && scripts[i] == r
  {
    if scripts == [] then None
    else if Marked(scripts[0]) then scripts[0]
    else
      var r := TargetScript(scripts[1..]);
      assert forall i :: 0 < i < |scripts| ==> scripts[i] == scripts[1..][i - 1];
      r
  }

  /** The date map the loop at scraper.py:149-151 builds, with norm for
      the normalisation: the row index read as a number, mapped to the
      normalised date; a later match for the same row overwrites an
      earlier one. */
  function DateMapOf(ms: seq<ScriptMatch>, norm: string -> string): map<nat, string>
    decreases |ms|
  {
    if ms == [] then map[]
    else
      var m := ms[|ms| - 1];
      DateMapOf(ms[..|ms| - 1], norm)[DigitsValue(m.index) := norm(m.date)]
  }

  /** _extract_dates_from_script */
  function ScriptDates(scripts: seq<Option<string>>): map<nat, string> {
    match TargetScript(scripts)
    case None => map[]
    case Some(t) => DateMapOf(ScriptMatches(t), NormalizeDate)
  }

  /** One more match updates the map at its row. */
  lemma DateMapStep(ms: seq<ScriptMatch>, k: nat, norm: string -> string)
    requires k < |ms|
    ensures DateMapOf(ms[..k + 1], norm) == DateMapOf(ms[..k], norm)[DigitsValue(ms[k].index) := norm(ms[k].date)]
  {
    assert ms[..k + 1][..k] == ms[..k];
  }

  /** The rows the map knows are exactly the indexes matched. */
  lemma {:induction false} DateMapKeys(ms: seq<ScriptMatch>, norm: string -> string)
    ensures forall k :: k in DateMapOf(ms, norm) <==> exists j :: 0 <= j < |ms| && DigitsValue(ms[j].index) == k
    decreases |ms|
  {
    if ms != [] {
      var n := |ms| - 1;
      var init := ms[..n];
      DateMapKeys(init, norm);
      forall k | k in DateMapOf(init, norm)
        ensures exists j :: 0 <= j < |ms| && DigitsValue(ms[j].index) == k
      {
        var j :| 0 <= j < n && DigitsValue(init[j].index) == k;
        assert init[j] == ms[j];
      }
      forall k | (exists j :: 0 <= j < |ms| && DigitsValue(ms[j].index) == k)
        ensures k in DateMapOf(ms, norm)
      {
        var j :| 0 <= j < |ms| && DigitsValue(ms[j].index) == k;
        if j < n {
          assert init[j] == ms[j];
        }
      }
    }
  }

  /** Each row is mapped to the normalised date of its last match. */
  lemma {:induction false} DateMapLast(ms: seq<ScriptMatch>, norm: string -> string)
    ensures forall j :: 0 <= j < |ms| && LastOfRow(ms, j) ==>
              var k := DigitsValue(ms[j].index);
              k in DateMapOf(ms, norm) && DateMapOf(ms, norm)[k] == norm(ms[j].date)
    decreases |ms|
  {
    if ms != [] {
      var n := |ms| - 1;
      var init := ms[..n];
      DateMapLast(init, norm);
      forall j | 0 <= j < n && LastOfRow(ms, j)
        ensures var k := DigitsValue(ms[j].index);
          k in DateMapOf(ms, norm) && DateMapOf(ms, norm)[k] == norm(ms[j].date)
      {
        assert init[j] == ms[j];
        assert LastOfRow(init, j) by {
          forall j' | j < j' < n ensures DigitsValue(init[j'].index) != DigitsValue(init[j].index) {
            assert init[j'] == ms[j'];
          }
        }
      }
    }
  }

  /** No later match is for the same row as match j. */
  predicate LastOfRow(ms: seq<ScriptMatch>, j: int)
    requires 0 <= j < |ms|
  {
    forall j' :: j < j' < |ms| ==> DigitsValue(ms[j'].index) != DigitsValue(ms[j].index)
  }

  /** The first loop of _extract_dates_from_script picks the target script,
      the second fills the map. */
  method ExtractDates(scripts: seq<Option<string>>) returns (dates: map<nat, string>)
    ensures dates == ScriptDates(scripts)
  {
    dates := map[];
    var target: Option<string> := None;
    var i := 0;
    while i < |scripts|
      invariant i <= |scripts|
      invariant forall j :: 0 <= j < i ==> !Marked(scripts[j])
    {
      if Marked(scripts[i]) {
        target := scripts[i];
        break;
      }
      i := i + 1;
    }
    if i == |scripts| {
      return;
    }
    assert TargetScript(scripts) == target by {
      TargetFirst(scripts, i);
    }
    var ms := ScriptMatches(target.value);
    var k := 0;
    while k < |ms|
      invariant k <= |ms|
      invariant dates == DateMapOf(ms[..k], NormalizeDate)
    {
      DateMapStep(ms, k, NormalizeDate);
      dates := dates[DigitsValue(ms[k].index) := NormalizeDate(ms[k].date)];
      k := k + 1;
    }
    assert ms[..k] == ms;
  }

  /** The target is the first marked script. */
  lemma {:induction false} TargetFirst(scripts: seq<Option<string>>, i: nat)
    requires i < |scripts| && Marked(scripts[i])
    requires forall j :: 0 <= j < i ==> !Marked(scripts[j])
    ensures TargetScript(scripts) == scripts[i]
  {
    var r := TargetScript(scripts);
    var i' :| FirstMarked(scripts, i') && scripts[i'] == r;
    assert i' == i;
  }

  // ---------------------------------------------------------------------
  // The items of a list page (scraper.py:171-199)
  // ---------------------------------------------------------------------

  /** One row link: its onclick text and, when the row has a date cell,
      the cell's text. */
  datatype Link = Link(onclick: string, dateText: Option<string>)

  /** The pattern fn_detail\((\d+)\) tried at p. */
  function DetailIdAt(s: string, p: nat): (r: Option<string>)
    ensures r.Some? ==> r.value != [] && AllDigits(r.value)
  {
    if !StartsAt(s, p, "fn_detail(") then None
    else
      var e := DigitSpan(s, p + 10);
      if e == p + 10 || e == |s| || s[e] != ')' then None
      else Some(s[p + 10..e])
  }

  /** re.search from p on: the id of the leftmost match. */
  function DetailIdFrom(s: string, p: nat): Option<string>
    decreases |s| + 1 - p
  {
    if p > |s| then None
    else if DetailIdAt(s, p).Some? then DetailIdAt(s, p)
    else DetailIdFrom(s, p + 1)
  }

  /** The id re.search finds in an onclick text. */
  function DetailId(onclick: string): Option<string> {
    DetailIdFrom(onclick, 0)
  }

  /** The id found is that of the leftmost position where the pattern
      matches, and there is none exactly when it matches nowhere. */
  lemma {:induction false} DetailIdLeftmost(s: string, p: nat)
    ensures DetailIdFrom(s, p).Some? <==> exists q :: p <= q <= |s| && DetailIdAt(s, q).Some?
    ensures DetailIdFrom(s, p).Some? ==>
              exists q :: p <= q <= |s| && DetailIdAt(s, q) == DetailIdFrom(s, p) &&
                (forall q' :: p <= q' < q ==> DetailIdAt(s, q').None?)
    decreases |s| + 1 - p
  {
    if p <= |s| && DetailIdAt(s, p).None? {
      DetailIdLeftmost(s, p + 1);
      var r := DetailIdFrom(s, p + 1);
      if r.Some? {
        var q :| p + 1 <= q <= |s| && DetailIdAt(s, q) == r && (forall q' :: p + 1 <= q' < q ==> DetailIdAt(s, q').None?);
        assert forall q' :: p <= q' < q ==> DetailIdAt(s, q').None?;
      }
      assert forall q :: p <= q <= |s| && DetailIdAt(s, q).Some? ==> p + 1 <= q;
    }
  }

  /** The word the date cell is labelled with. */
  const Registered: string := "\U{B4F1}\U{B85D}\U{C77C}"

  /** The date of the row at position idx: the script's date, else the
      date cell's text without its label, else today. */
  function ItemDate(idx: nat, link: Link, scriptDates: map<nat, string>, today: string): (r: string)
    ensures today != "" ==> r != ""
  {
    var fromScript := if idx in scriptDates then scriptDates[idx] else "";
    if fromScript != "" then fromScript
    else
      var fromCell := match link.dateText case None => "" case Some(t) => Strip(RemoveAll(t, Registered));
      if fromCell != "" then fromCell else today
  }

  function Ids(items: seq<(string, string)>): (r: seq<string>)
    ensures |r| == |items| && forall k :: 0 <= k < |items| ==> r[k] == items[k].0
  {
    seq(|items|, k requires 0 <= k < |items| => items[k].0)
  }

  /** What the row at position n adds to the items so far: nothing when
      its onclick holds no id or an earlier row already gave the id. */
  function AddRow(prev: seq<(string, string)>, n: nat, link: Link, scriptDates: map<nat, string>,
                  today: string): seq<(string, string)>
  {
    match DetailId(link.onclick)
    case None => prev
    case Some(id) => if id in Ids(prev) then prev else prev + [(id, ItemDate(n, link, scriptDates, today))]
  }

  /** The items of the rows, one row after the other. */
  function ItemsOf(links: seq<Link>, scriptDates: map<nat, string>, today: string): seq<(string, string)>
    decreases |links|
  {
    if links == [] then []
    else
      var n := |links| - 1;
      AddRow(ItemsOf(links[..n], scriptDates, today), n, links[n], scriptDates, today)
  }

  /** The loop of get_list_page. */
  method ListItems(links: seq<Link>, scriptDates: map<nat, string>, today: string)
    returns (items: seq<(string, string)>)
    ensures items == ItemsOf(links, scriptDates, today)
  {
    items := [];
    var seenPageIds: set<string> := {};
    var idx := 0;
    while idx < |links|
      invariant idx <= |links|
      invariant items == ItemsOf(links[..idx], scriptDates, today)
      invariant forall x :: x in seenPageIds <==> x in Ids(items)
    {
      assert links[..idx + 1][..idx] == links[..idx];
      ghost var prev := items;
      var m := DetailId(links[idx].onclick);
      if m.Some? && m.value !in seenPageIds {
        var ntt := m.value;
        seenPageIds := seenPageIds + {ntt};
        var date := ItemDate(idx, links[idx], scriptDates, today);
        items := items + [(ntt, date)];
        assert Ids(items) == Ids(prev) + [ntt];
      }
      assert items == AddRow(prev, idx, links[idx], scriptDates, today);
      idx := idx + 1;
    }
    assert links[..idx] == links;
  }

  /** The ids the rows carry, in row order, repeats included. */
  function PresentIds(links: seq<Link>): seq<string>
    decreases |links|
  {
    if links == [] then []
    else
      var n := |links| - 1;
      PresentIds(links[..n]) + match DetailId(links[n].onclick) case None => [] case Some(id) => [id]
  }

  /** The first occurrence of each element, in order. */
  function Dedup(xs: seq<string>): (r: seq<string>)
    decreases |xs|
  {
    if xs == [] then []
    else
      var d := Dedup(xs[..|xs| - 1]);
      if xs[|xs| - 1] in d then d else d + [xs[|xs| - 1]]
  }

  /** Dedup keeps every element once: same elements, pairwise distinct. */
  lemma {:induction false} DedupSpec(xs: seq<string>)
    ensures forall x :: x in Dedup(xs) <==> x in xs
    ensures forall i, j :: 0 <= i < j < |Dedup(xs)| ==> Dedup(xs)[i] != Dedup(xs)[j]
    decreases |xs|
  {
    if xs != [] {
      var init := xs[..|xs| - 1];
      DedupSpec(init);
      assert xs == init + [xs[|xs| - 1]];
    }
  }

  /** The page's ids are the rows' ids with repeats dropped, in the order
      of first occurrence. */
  lemma {:induction false} ItemsIds(links: seq<Link>, scriptDates: map<nat, string>, today: string)
    ensures Ids(ItemsOf(links, scriptDates, today)) == Dedup(PresentIds(links))
    decreases |links|
  {
    if links != [] {
      var n := |links| - 1;
      ItemsIds(links[..n], scriptDates, today);
      var prev := ItemsOf(links[..n], scriptDates, today);
      match DetailId(links[n].onclick)
      case None =>
        assert PresentIds(links) == PresentIds(links[..n]);
      case Some(id) =>
        var ps := PresentIds(links);
        assert ps[..|ps| - 1] == PresentIds(links[..n]) && ps[|ps| - 1] == id;
        if id !in Ids(prev) {
          var date := ItemDate(n, links[n], scriptDates, today);
          assert Ids(prev + [(id, date)]) == Ids(prev) + [id];
        }
    }
  }

  /** Every item's id is one of the rows' ids, and no id occurs twice. */
  lemma {:induction false} ItemsDistinct(links: seq<Link>, scriptDates: map<nat, string>, today: string)
    ensures forall x :: x in Ids(ItemsOf(links, scriptDates, today)) <==> x in PresentIds(links)
    ensures forall i, j :: 0 <= i < j < |ItemsOf(links, scriptDates, today)| ==>
              ItemsOf(links, scriptDates, today)[i].0 != ItemsOf(links, scriptDates, today)[j].0
  {
    ItemsIds(links, scriptDates, today);
    DedupSpec(PresentIds(links));
    var items := ItemsOf(links, scriptDates, today);
    forall i, j | 0 <= i < j < |items| ensures items[i].0 != items[j].0 {
      assert Ids(items)[i] == items[i].0 && Ids(items)[j] == items[j].0;
    }
  }

  /** Row j is the first row that carries id. */
  predicate FirstRowOf(links: seq<Link>, j: int, id: string) {
    0 <= j < |links| && DetailId(links[j].onclick) == Some(id) &&
    forall j' :: 0 <= j' < j ==> DetailId(links[j'].onclick) != Some(id)
  }

  /** The item's id is first carried by row j and its date is that row's
      date. */
  predicate DatedBy(links: seq<Link>, j: int, item: (string, string), scriptDates: map<nat, string>,
                    today: string)
  {
    FirstRowOf(links, j, item.0) && item.1 == ItemDate(j, links[j], scriptDates, today)
  }

  /** Some row dates the item. */
  ghost predicate Dated(links: seq<Link>, item: (string, string), scriptDates: map<nat, string>, today: string) {
    exists j :: DatedBy(links, j, item, scriptDates, today)
  }

  /** Each item's date is the date of the first row carrying its id, looked
      up by that row's position among all rows (rows without an id
      included). */
  lemma {:induction false} ItemsDates(links: seq<Link>, scriptDates: map<nat, string>, today: string)
    ensures forall k :: 0 <= k < |ItemsOf(links, scriptDates, today)| ==>
              Dated(links, ItemsOf(links, scriptDates, today)[k], scriptDates, today)
    decreases |links|
  {
    if links != [] {
      var items := ItemsOf(links, scriptDates, today);
      var n := |links| - 1;
      var init := links[..n];
      var prev := ItemsOf(init, scriptDates, today);
      ItemsDates(init, scriptDates, today);
      forall k | 0 <= k < |items|
        ensures Dated(links, items[k], scriptDates, today)
      {
        if k < |prev| {
          assert Dated(init, prev[k], scriptDates, today);
          var j :| DatedBy(init, j, prev[k], scriptDates, today);
          FirstRowExtends(links, n, j, prev[k].0);
          assert items[k] == prev[k] && init[j] == links[j];
          assert DatedBy(links, j, items[k], scriptDates, today);
        } else {
          NewItemFirst(links, scriptDates, today);
          assert DatedBy(links, n, items[k], scriptDates, today);
        }
      }
    }
  }

  /** A first row of a prefix stays the first row of the whole. */
  lemma FirstRowExtends(links: seq<Link>, n: nat, j: int, id: string)
    requires n <= |links| && FirstRowOf(links[..n], j, id)
    ensures FirstRowOf(links, j, id)
  {
    assert forall j' :: 0 <= j' <= j ==> links[..n][j'] == links[j'];
  }

  /** When the last row adds an item, that item is last, it carries the
      row's id and date, and no earlier row carries that id. */
  lemma {:induction false} NewItemFirst(links: seq<Link>, scriptDates: map<nat, string>, today: string)
    requires links != []
    requires |ItemsOf(links, scriptDates, today)| > |ItemsOf(links[..|links| - 1], scriptDates, today)|
    ensures var n := |links| - 1;
      var items := ItemsOf(links, scriptDates, today);
      |items| == |ItemsOf(links[..n], scriptDates, today)| + 1 &&
      DetailId(links[n].onclick) == Some(items[|items| - 1].0) &&
      items[|items| - 1].1 == ItemDate(n, links[n], scriptDates, today) &&
      FirstRowOf(links, n, items[|items| - 1].0)
  {
    var n := |links| - 1;
    var init := links[..n];
    var id := DetailId(links[n].onclick).value;
    ItemsDistinct(init, scriptDates, today);
    PresentIdsMembers(init);
    forall j' | 0 <= j' < n ensures DetailId(links[j'].onclick) != Some(id) {
      assert init[j'] == links[j'];
    }
  }

  /** Every item's date is non-empty when today is. */
  lemma {:induction false} ItemsDatesNonEmpty(links: seq<Link>, scriptDates: map<nat, string>, today: string)
    requires today != ""
    ensures forall it :: it in ItemsOf(links, scriptDates, today) ==> it.1 != ""
    decreases |links|
  {
    if links != [] {
      ItemsDatesNonEmpty(links[..|links| - 1], scriptDates, today);
    }
  }

  /** The ids PresentIds collects are those the rows carry. */
  lemma {:induction false} PresentIdsMembers(links: seq<Link>)
    ensures forall j :: 0 <= j < |links| && DetailId(links[j].onclick).Some? ==>
              DetailId(links[j].onclick).value in PresentIds(links)
    decreases |links|
  {
    if links != [] {
      var n := |links| - 1;
      PresentIdsMembers(links[..n]);
      assert forall j :: 0 <= j < n ==> links[..n][j] == links[j];
    }
  }

  // ---------------------------------------------------------------------
  // get_list_page (scraper.py:155-205)
  // ---------------------------------------------------------------------

  /** A fetched list page: the page's scripts (None for a script without
      text) and its row links. */
  datatype ListHtml = ListHtml(scripts: seq<Option<string>>, links: seq<Link>)

  /** The items of a list page; a page whose request failed gives none. */
  function ListPage(page: Option<ListHtml>, today: string): seq<(string, string)> {
    match page
    case None => []
    case Some(h) => ItemsOf(h.links, ScriptDates(h.scripts), today)
  }

  /** get_list_page, with the response as an input. */
  method GetListPage(page: Option<ListHtml>, today: string) returns (items: seq<(string, string)>)
    ensures items == ListPage(page, today)
  {
    if page.None? {
      return [];
    }
    var scriptDates := ExtractDates(page.value.scripts);
    items := ListItems(page.value.links, scriptDates, today);
  }

  /** The ids of a list page are pairwise distinct and every date is
      non-empty when today is. */
  lemma ListPageWellFormed(page: Option<ListHtml>, today: string)
    requires today != ""
    ensures forall i, j :: 0 <= i < j < |ListPage(page, today)| ==> ListPage(page, today)[i].0 != ListPage(page, today)[j].0
    ensures forall k :: 0 <= k < |ListPage(page, today)| ==> ListPage(page, today)[k].1 != ""
  {
    if page.Some? {
      var h := page.value;
      var items := ItemsOf(h.links, ScriptDates(h.scripts), today);
      ItemsDistinct(h.links, ScriptDates(h.scripts), today);
      ItemsDatesNonEmpty(h.links, ScriptDates(h.scripts), today);
      assert forall k :: 0 <= k < |items| ==> items[k] in items;
    }
  }
}
