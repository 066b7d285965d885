/** The collecting loop of PressReleaseScraper (scraper.py:38-54, 273-381):
    list pages are read one after the other, each item is checked against
    the year cutoff and the ids already collected, new releases are
    fetched, and every page's records are merged into the spreadsheet. */
module Scraper {
  import opened Text
  import opened Utils
  import opened Records
  import opened Listing
  import opened Detail

  // ---------------------------------------------------------------------
  // The run, as a function of its inputs
  // ---------------------------------------------------------------------

  /** The target year and whether the run is a test run. */
  datatype Config = Config(year: int, testMode: bool)

  /** The number of records a test run collects before it stops. */
  const TestLimit: nat := 5

  /** What the run has done so far: the ids seen, the records not yet
      saved, the spreadsheet (None: no file), the records collected in
      this run, whether it must stop, and the ids whose detail page it has
      requested, in order. */
  datatype Progress = Progress(seen: set<string>, collected: seq<Record>, store: Option<seq<Record>>,
                               total: nat, stop: bool, fetched: seq<string>)

  /** The item's date parses to a year before the target year. */
  predicate BeforeYear(date: string, year: int) {
    match ParseDate(date)
    case None => false
    case Some(d) => d.year < year
  }

  /** The item (id, date) past the cutoff check: skipped when its id was
      seen (outside test mode), else its detail page is requested;
      detail(id, date) is the record get_detail_page returns, None on
      failure. The flag says the loop stops after this item. */
  function FetchStep(id: string, date: string, cfg: Config,
                     detail: (string, string) -> Option<Record>, st: Progress): (Progress, bool)
  {
    if id in st.seen && !cfg.testMode then (st, false)
    else
      var st1 := st.(fetched := st.fetched + [id]);
      match detail(id, date)
      case None => (st1, false)
      case Some(rec) =>
        var st2 := st1.(collected := st1.collected + [rec], seen := st1.seen + {id}, total := st1.total + 1);
        if cfg.testMode && st2.total >= TestLimit then (st2.(stop := true), true)
        else (st2, false)
  }

  /** One pass of the item loop: an item dated before the target year
      stops the loop. */
  function ItemStep(id: string, date: string, cfg: Config,
                    detail: (string, string) -> Option<Record>, st: Progress): (Progress, bool)
  {
    if BeforeYear(date, cfg.year) then (st.(stop := true), true)
    else FetchStep(id, date, cfg, detail, st)
  }

  /** The loop over the items of one page from item k on. */
  function ItemsFrom(items: seq<(string, string)>, k: nat, cfg: Config,
                     detail: (string, string) -> Option<Record>, st: Progress): Progress
    decreases |items| - k
  {
    if k >= |items| then st
    else
      var step := ItemStep(items[k].0, items[k].1, cfg, detail, st);
      if step.1 then step.0 else ItemsFrom(items, k + 1, cfg, detail, step.0)
  }

  /** save_data: a non-empty batch is merged into the spreadsheet and
      emptied. */
  function Flush(st: Progress): Progress {
    if st.collected == [] then st
    else st.(store := Some(Merge(st.store, st.collected)), collected := [])
  }

  /** One page: its items, then the save. */
  function AfterPage(st: Progress, items: seq<(string, string)>, cfg: Config,
                     detail: (string, string) -> Option<Record>): Progress
  {
    Flush(ItemsFrom(items, 0, cfg, detail, st))
  }

  /** The page loop from page k on; pages(k) is what get_list_page returns
      for the k-th page read, and only the first n pages have items. */
  function RunFrom(pages: nat -> seq<(string, string)>, n: nat, k: nat, cfg: Config,
                   detail: (string, string) -> Option<Record>, st: Progress): Progress
    decreases n - k
  {
    if st.stop || k >= n || pages(k) == [] then st
    else RunFrom(pages, n, k + 1, cfg, detail, AfterPage(st, pages(k), cfg, detail))
  }

  // ---------------------------------------------------------------------
  // What the run guarantees
  // ---------------------------------------------------------------------

  /** The ids the spreadsheet holds. */
  function StoredIds(store: Option<seq<Record>>): set<string> {
    match store
    case None => {}
    case Some(rs) => IdSet(rs)
  }

  /** Nothing is waiting to be saved and the ids seen are exactly those of
      the spreadsheet. */
  predicate Synced(st: Progress) {
    st.collected == [] && st.seen == StoredIds(st.store)
  }

  /** A fetched record carries the id it was fetched for. */
  ghost predicate IdsMatch(detail: (string, string) -> Option<Record>) {
    forall id, date :: detail(id, date).Some? ==> detail(id, date).value.id == id
  }

  /** rec is the record fetched for one of the items from k on. */
  ghost predicate FromItems(items: seq<(string, string)>, k: nat, rec: Record,
                            detail: (string, string) -> Option<Record>) {
    exists i :: k <= i < |items| && detail(items[i].0, items[i].1) == Some(rec)
  }

  /** One of the items from k on is dated before the year. */
  predicate HasCutoff(items: seq<(string, string)>, k: nat, year: int) {
    exists i :: k <= i < |items| && BeforeYear(items[i].1, year)
  }

  /** No item from k up to i is dated before the year. */
  predicate NoCutoffUpTo(items: seq<(string, string)>, k: nat, i: int, year: int) {
    forall j :: k <= j <= i && j < |items| ==> !BeforeYear(items[j].1, year)
  }

  /** id is the id of an item from k on that no earlier item cuts off. */
  ghost predicate BeforeCutoff(items: seq<(string, string)>, k: nat, id: string, year: int) {
    exists i :: k <= i < |items| && items[i].0 == id && NoCutoffUpTo(items, k, i, year)
  }

  /** One pass of the item loop only adds: at most the item's record to
      the batch, with its id to the ids seen, and at most the item's id to
      the requests, which outside test mode is never an id seen before. */
  lemma ItemStepGrows(id: string, date: string, cfg: Config,
                      detail: (string, string) -> Option<Record>, st: Progress, s: Progress)
    requires s == ItemStep(id, date, cfg, detail, st).0
    ensures s.store == st.store && (st.stop ==> s.stop)
    ensures st.seen <= s.seen && st.collected <= s.collected && st.fetched <= s.fetched
    ensures s.total - st.total == |s.collected| - |st.collected| <= 1
    ensures |s.collected| > |st.collected| ==> detail(id, date).Some? &&
                                               s.collected[|st.collected|..] == [detail(id, date).value] &&
                                               s.seen == st.seen + {id}
    ensures |s.collected| == |st.collected| ==> s.seen == st.seen
    ensures |s.fetched| <= |st.fetched| + 1
    ensures |s.fetched| > |st.fetched| ==> s.fetched[|st.fetched|] == id && !BeforeYear(date, cfg.year) &&
                                           (id in st.seen ==> cfg.testMode)
    ensures |s.fetched| > |st.fetched| && detail(id, date).Some? ==>
              s.collected == st.collected + [detail(id, date).value] && s.seen == st.seen + {id}
  {
  }

  /** The item loop only adds: the spreadsheet is untouched, the ids seen,
      the batch and the requests grow, and the counter counts the records
      added. */
  lemma {:induction false} ItemsFromGrows(items: seq<(string, string)>, k: nat, cfg: Config,
                                          detail: (string, string) -> Option<Record>, st: Progress, r: Progress)
    requires r == ItemsFrom(items, k, cfg, detail, st)
    ensures r.store == st.store && (st.stop ==> r.stop)
    ensures st.seen <= r.seen && st.collected <= r.collected && st.fetched <= r.fetched
    ensures r.total - st.total == |r.collected| - |st.collected|
    decreases |items| - k
  {
    if k < |items| {
      var step := ItemStep(items[k].0, items[k].1, cfg, detail, st);
      ItemStepGrows(items[k].0, items[k].1, cfg, detail, st, step.0);
      if !step.1 {
        ItemsFromGrows(items, k + 1, cfg, detail, step.0, r);
      }
    }
  }

  /** rec is one of the records r collected from position from on. */
  ghost predicate CollectedFrom(r: Progress, from: nat, rec: Record) {
    exists c :: from <= c < |r.collected| && r.collected[c] == rec
  }

  /** id is the id of an item from k on whose record, when its detail
      page gives one, was collected from position from on. */
  ghost predicate Served(items: seq<(string, string)>, k: nat, id: string,
                         detail: (string, string) -> Option<Record>, r: Progress, from: nat) {
    exists i :: k <= i < |items| && items[i].0 == id &&
      (detail(items[i].0, items[i].1).Some? ==> CollectedFrom(r, from, detail(items[i].0, items[i].1).value))
  }

  /** Every request the item loop makes that returns a record adds that
      record to the batch. */
  lemma {:induction false} ItemsFromCollects(items: seq<(string, string)>, k: nat, cfg: Config,
                                             detail: (string, string) -> Option<Record>, st: Progress, r: Progress)
    requires r == ItemsFrom(items, k, cfg, detail, st)
    ensures forall j :: |st.fetched| <= j < |r.fetched| ==>
              Served(items, k, r.fetched[j], detail, r, |st.collected|)
    decreases |items| - k
  {
    if k < |items| {
      var id, date := items[k].0, items[k].1;
      var step := ItemStep(id, date, cfg, detail, st);
      var s := step.0;
      ItemStepGrows(id, date, cfg, detail, st, s);
      if !step.1 {
        ItemsFromCollects(items, k + 1, cfg, detail, s, r);
        ItemsFromGrows(items, k + 1, cfg, detail, s, r);
        forall j | |st.fetched| <= j < |r.fetched| ensures Served(items, k, r.fetched[j], detail, r, |st.collected|) {
          if j < |s.fetched| {
            ServedHere(items, k, cfg, detail, st, s, r);
          } else {
            ServedLater(items, k, detail, st, s, r, r.fetched[j]);
          }
        }
      } else {
        assert r == s;
        if |s.fetched| > |st.fetched| {
          ServedHere(items, k, cfg, detail, st, s, r);
        }
      }
    }
  }

  /** The request item k makes is served by r when r extends the state
      after item k. */
  lemma ServedHere(items: seq<(string, string)>, k: nat, cfg: Config,
                   detail: (string, string) -> Option<Record>, st: Progress, s: Progress, r: Progress)
    requires k < |items| && s == ItemStep(items[k].0, items[k].1, cfg, detail, st).0
    requires |s.fetched| > |st.fetched| && s.collected <= r.collected
    ensures Served(items, k, items[k].0, detail, r, |st.collected|)
  {
    ItemStepGrows(items[k].0, items[k].1, cfg, detail, st, s);
    var d := detail(items[k].0, items[k].1);
    if d.Some? {
      assert r.collected[|st.collected|] == s.collected[|st.collected|] == d.value;
      assert CollectedFrom(r, |st.collected|, d.value);
    }
  }

  /** A request served from item k + 1 on is served from item k on. */
  lemma ServedLater(items: seq<(string, string)>, k: nat, detail: (string, string) -> Option<Record>,
                    st: Progress, s: Progress, r: Progress, id: string)
    requires st.collected <= s.collected
    requires Served(items, k + 1, id, detail, r, |s.collected|)
    ensures Served(items, k, id, detail, r, |st.collected|)
  {
    var i :| k + 1 <= i < |items| && items[i].0 == id &&
      (detail(items[i].0, items[i].1).Some? ==> CollectedFrom(r, |s.collected|, detail(items[i].0, items[i].1).value));
    if detail(items[i].0, items[i].1).Some? {
      var c :| |s.collected| <= c < |r.collected| && r.collected[c] == detail(items[i].0, items[i].1).value;
      assert CollectedFrom(r, |st.collected|, detail(items[i].0, items[i].1).value);
    }
  }

  /** Each record the item loop adds was fetched for one of the items. */
  lemma {:induction false} ItemsFromAdds(items: seq<(string, string)>, k: nat, cfg: Config,
                                         detail: (string, string) -> Option<Record>, st: Progress, r: Progress)
    requires r == ItemsFrom(items, k, cfg, detail, st)
    ensures forall j :: |st.collected| <= j < |r.collected| ==> FromItems(items, k, r.collected[j], detail)
    decreases |items| - k
  {
    if k < |items| {
      var step := ItemStep(items[k].0, items[k].1, cfg, detail, st);
      var s := step.0;
      ItemStepGrows(items[k].0, items[k].1, cfg, detail, st, s);
      if !step.1 {
        ItemsFromAdds(items, k + 1, cfg, detail, s, r);
        ItemsFromGrows(items, k + 1, cfg, detail, s, r);
      } else {
        assert r == s;
      }
      AddsCombine(items, k, detail, st, s, r);
    }
  }

  /** When fetched records carry their ids, the ids seen after the item
      loop are those seen before and those of the records it added. */
  lemma {:induction false} ItemsFromSeen(items: seq<(string, string)>, k: nat, cfg: Config,
                                         detail: (string, string) -> Option<Record>, st: Progress, r: Progress)
    requires r == ItemsFrom(items, k, cfg, detail, st) && IdsMatch(detail)
    ensures st.collected <= r.collected
    ensures r.seen == st.seen + IdSet(r.collected[|st.collected|..])
    decreases |items| - k
  {
    if k < |items| {
      var step := ItemStep(items[k].0, items[k].1, cfg, detail, st);
      var s := step.0;
      ItemStepSeen(items[k].0, items[k].1, cfg, detail, st, s);
      if !step.1 {
        ItemsFromSeen(items, k + 1, cfg, detail, s, r);
        IdSetSplit(st.collected, s.collected, r.collected);
      }
    } else {
      assert r.collected[|st.collected|..] == [];
    }
  }

  /** One item adds to the ids seen the ids of the records it adds. */
  lemma ItemStepSeen(id: string, date: string, cfg: Config,
                     detail: (string, string) -> Option<Record>, st: Progress, s: Progress)
    requires s == ItemStep(id, date, cfg, detail, st).0 && IdsMatch(detail)
    ensures st.collected <= s.collected
    ensures s.seen == st.seen + IdSet(s.collected[|st.collected|..])
  {
    ItemStepGrows(id, date, cfg, detail, st, s);
    if |s.collected| > |st.collected| {
      assert IdSet([detail(id, date).value]) == {id};
    } else {
      assert s.collected[|st.collected|..] == [];
    }
  }

  /** Outside test mode the item loop requests no id seen before it. */
  lemma {:induction false} ItemsNoRefetch(items: seq<(string, string)>, k: nat, cfg: Config,
                                          detail: (string, string) -> Option<Record>, st: Progress, r: Progress)
    requires r == ItemsFrom(items, k, cfg, detail, st) && !cfg.testMode
    ensures forall j :: |st.fetched| <= j < |r.fetched| ==> r.fetched[j] !in st.seen
    decreases |items| - k
  {
    if k < |items| {
      var step := ItemStep(items[k].0, items[k].1, cfg, detail, st);
      var s := step.0;
      ItemStepGrows(items[k].0, items[k].1, cfg, detail, st, s);
      if !step.1 {
        ItemsNoRefetch(items, k + 1, cfg, detail, s, r);
        ItemsFromGrows(items, k + 1, cfg, detail, s, r);
        forall j | |st.fetched| <= j < |r.fetched| ensures r.fetched[j] !in st.seen {
          if j < |s.fetched| {
            assert r.fetched[j] == s.fetched[j];
          }
        }
      } else {
        assert r == s;
      }
    }
  }

  /** The records added by item k, then by the items after it, come from
      the items from k on. */
  lemma AddsCombine(items: seq<(string, string)>, k: nat, detail: (string, string) -> Option<Record>,
                    st: Progress, s: Progress, r: Progress)
    requires k < |items| && st.collected <= s.collected <= r.collected
    requires |s.collected| > |st.collected| ==> detail(items[k].0, items[k].1).Some? &&
                                                s.collected[|st.collected|..] == [detail(items[k].0, items[k].1).value]
    requires forall j :: |s.collected| <= j < |r.collected| ==> FromItems(items, k + 1, r.collected[j], detail)
    ensures forall j :: |st.collected| <= j < |r.collected| ==> FromItems(items, k, r.collected[j], detail)
  {
    forall j | |st.collected| <= j < |r.collected| ensures FromItems(items, k, r.collected[j], detail) {
      if j >= |s.collected| {
        assert FromItems(items, k + 1, r.collected[j], detail);
        var i :| k + 1 <= i < |items| && detail(items[i].0, items[i].1) == Some(r.collected[j]);
      } else {
        assert r.collected[j] == s.collected[j] == s.collected[|st.collected|..][0];
      }
    }
  }

  /** A test run collects no more than TestLimit records, and stops once
      it has collected that many. */
  lemma {:induction false} ItemsTestLimit(items: seq<(string, string)>, k: nat, cfg: Config,
                                          detail: (string, string) -> Option<Record>, st: Progress)
    requires cfg.testMode && st.total < TestLimit
    ensures ItemsFrom(items, k, cfg, detail, st).total <= TestLimit
    ensures ItemsFrom(items, k, cfg, detail, st).total == TestLimit ==> ItemsFrom(items, k, cfg, detail, st).stop
    decreases |items| - k
  {
    if k < |items| {
      var step := ItemStep(items[k].0, items[k].1, cfg, detail, st);
      if !step.1 {
        ItemsTestLimit(items, k + 1, cfg, detail, step.0);
      }
    }
  }

  /** An item dated before the target year stops the run, and only the
      items before the first such item are requested. */
  lemma {:induction false} ItemsCutoff(items: seq<(string, string)>, k: nat, cfg: Config,
                                       detail: (string, string) -> Option<Record>, st: Progress, r: Progress)
    requires r == ItemsFrom(items, k, cfg, detail, st)
    ensures HasCutoff(items, k, cfg.year) ==> r.stop
    ensures forall j :: |st.fetched| <= j < |r.fetched| ==> BeforeCutoff(items, k, r.fetched[j], cfg.year)
    decreases |items| - k
  {
    if k < |items| {
      var step := ItemStep(items[k].0, items[k].1, cfg, detail, st);
      var s := step.0;
      if BeforeYear(items[k].1, cfg.year) {
        assert r == st.(stop := true);
      } else {
        assert NoCutoffUpTo(items, k, k, cfg.year);
        assert forall j :: |st.fetched| <= j < |s.fetched| ==> s.fetched[j] == items[k].0;
        if !step.1 {
          ItemsCutoff(items, k + 1, cfg, detail, s, r);
          ItemsFromGrows(items, k + 1, cfg, detail, s, r);
          if HasCutoff(items, k, cfg.year) {
            var i :| k <= i < |items| && BeforeYear(items[i].1, cfg.year);
            assert HasCutoff(items, k + 1, cfg.year);
          }
          forall j | |st.fetched| <= j < |r.fetched| ensures BeforeCutoff(items, k, r.fetched[j], cfg.year) {
            if j < |s.fetched| {
              assert r.fetched[j] == s.fetched[j];
            } else {
              var i :| k + 1 <= i < |items| && items[i].0 == r.fetched[j] && NoCutoffUpTo(items, k + 1, i, cfg.year);
              assert NoCutoffUpTo(items, k, i, cfg.year);
            }
          }
        }
      }
    }
  }

  /** The ids of a merged spreadsheet are those it held and those of the
      batch. */
  lemma MergeIds(store: Option<seq<Record>>, batch: seq<Record>)
    ensures IdSet(Merge(store, batch)) == StoredIds(store) + IdSet(batch)
  {
    if store.Some? {
      MergeSpec(store.value, batch);
    }
  }

  /** A page leaves the ids seen, the requests and, outside test mode, the
      ids seen before it behave as the item loop does. */
  lemma AfterPageGrows(st: Progress, items: seq<(string, string)>, cfg: Config,
                       detail: (string, string) -> Option<Record>)
    ensures st.seen <= AfterPage(st, items, cfg, detail).seen
    ensures st.fetched <= AfterPage(st, items, cfg, detail).fetched
    ensures st.stop ==> AfterPage(st, items, cfg, detail).stop
    ensures !cfg.testMode ==> forall j :: |st.fetched| <= j < |AfterPage(st, items, cfg, detail).fetched| ==>
                                AfterPage(st, items, cfg, detail).fetched[j] !in st.seen
  {
    var r := ItemsFrom(items, 0, cfg, detail, st);
    ItemsFromGrows(items, 0, cfg, detail, st, r);
    if !cfg.testMode {
      ItemsNoRefetch(items, 0, cfg, detail, st, r);
    }
  }

  /** Outside test mode a run never requests an id it had seen when it
      started: in particular no release the spreadsheet held. */
  lemma {:induction false} RunNoRefetch(pages: nat -> seq<(string, string)>, n: nat, k: nat, cfg: Config,
                                        detail: (string, string) -> Option<Record>, st: Progress)
    requires !cfg.testMode
    ensures st.fetched <= RunFrom(pages, n, k, cfg, detail, st).fetched
    ensures st.seen <= RunFrom(pages, n, k, cfg, detail, st).seen
    ensures forall j :: |st.fetched| <= j < |RunFrom(pages, n, k, cfg, detail, st).fetched| ==>
              RunFrom(pages, n, k, cfg, detail, st).fetched[j] !in st.seen
    decreases n - k
  {
    if !(st.stop || k >= n || pages(k) == []) {
      var s := AfterPage(st, pages(k), cfg, detail);
      AfterPageGrows(st, pages(k), cfg, detail);
      RunNoRefetch(pages, n, k + 1, cfg, detail, s);
      var r := RunFrom(pages, n, k + 1, cfg, detail, s);
      forall j | |st.fetched| <= j < |r.fetched| ensures r.fetched[j] !in st.seen {
        if j < |s.fetched| {
          assert r.fetched[j] == s.fetched[j];
        }
      }
    }
  }

  /** A page keeps the spreadsheet in step with the ids seen: what the
      item loop collects is saved, and its ids become the seen ones. */
  lemma AfterPageSynced(st: Progress, items: seq<(string, string)>, cfg: Config,
                        detail: (string, string) -> Option<Record>)
    requires Synced(st) && IdsMatch(detail)
    ensures Synced(AfterPage(st, items, cfg, detail))
  {
    var r := ItemsFrom(items, 0, cfg, detail, st);
    ItemsFromGrows(items, 0, cfg, detail, st, r);
    ItemsFromSeen(items, 0, cfg, detail, st, r);
    assert r.collected[|st.collected|..] == r.collected;
    MergeIds(r.store, r.collected);
  }

  /** When fetched records carry their ids, a run that starts with the
      spreadsheet in step with the ids seen ends that way: every record
      it collected is saved, and the spreadsheet holds exactly the ids
      seen. */
  lemma {:induction false} RunSynced(pages: nat -> seq<(string, string)>, n: nat, k: nat, cfg: Config,
                                     detail: (string, string) -> Option<Record>, st: Progress)
    requires Synced(st) && IdsMatch(detail)
    ensures Synced(RunFrom(pages, n, k, cfg, detail, st))
    decreases n - k
  {
    if !(st.stop || k >= n || pages(k) == []) {
      AfterPageSynced(st, pages(k), cfg, detail);
      RunSynced(pages, n, k + 1, cfg, detail, AfterPage(st, pages(k), cfg, detail));
    }
  }

  /** A test run collects no more than TestLimit records. */
  lemma {:induction false} RunTestLimit(pages: nat -> seq<(string, string)>, n: nat, k: nat, cfg: Config,
                                        detail: (string, string) -> Option<Record>, st: Progress)
    requires cfg.testMode && (st.total < TestLimit || (st.total == TestLimit && st.stop))
    ensures RunFrom(pages, n, k, cfg, detail, st).total <= TestLimit
    decreases n - k
  {
    if !(st.stop || k >= n || pages(k) == []) {
      ItemsTestLimit(pages(k), 0, cfg, detail, st);
      RunTestLimit(pages, n, k + 1, cfg, detail, AfterPage(st, pages(k), cfg, detail));
    }
  }

  /** A page holding an item dated before the target year is the last
      page read. */
  lemma RunStopsAtCutoff(pages: nat -> seq<(string, string)>, n: nat, k: nat, cfg: Config,
                         detail: (string, string) -> Option<Record>, st: Progress)
    requires k < n && !st.stop && pages(k) != [] && HasCutoff(pages(k), 0, cfg.year)
    ensures RunFrom(pages, n, k, cfg, detail, st) == AfterPage(st, pages(k), cfg, detail)
  {
    var r := ItemsFrom(pages(k), 0, cfg, detail, st);
    ItemsCutoff(pages(k), 0, cfg, detail, st, r);
  }

  // ---------------------------------------------------------------------
  // The scraper
  // ---------------------------------------------------------------------

  /** The site as the run sees it: the responses to the list pages from
      the start page on (None: the request failed), today's date, and for
      each id the detail page (None: the request failed) and the
      attachment downloads. */
  datatype Site = Site(lists: seq<Option<ListHtml>>, today: string,
                       details: string -> Option<DetailHtml>, files: string -> Files)

  /** The response to the k-th list page read; None past the last. */
  function PageHtml(site: Site, k: nat): Option<ListHtml> {
    if k < |site.lists| then site.lists[k] else None
  }

  /** pages(k) is what get_list_page returns for the k-th page read. */
  ghost predicate ServesLists(pages: nat -> seq<(string, string)>, site: Site) {
    forall k: nat {:trigger ListPage(PageHtml(site, k), site.today)} ::
      pages(k) == ListPage(PageHtml(site, k), site.today)
  }

  /** detail(id, date) is what get_detail_page returns for the release. */
  ghost predicate ServesDetails(detail: (string, string) -> Option<Record>, site: Site) {
    forall id: string, date: string {:trigger DetailOf(id, date, site.details(id), site.files(id))} ::
      detail(id, date) == DetailOf(id, date, site.details(id), site.files(id))
  }

  /** The list pages of a site, as a function of the page read. */
  function Pages(site: Site): (r: nat -> seq<(string, string)>)
    ensures ServesLists(r, site)
  {
    (k: nat) => ListPage(PageHtml(site, k), site.today)
  }

  /** get_detail_page over a site, as a function of the id and date. */
  function Fetcher(site: Site): (r: (string, string) -> Option<Record>)
    ensures ServesDetails(r, site) && IdsMatch(r)
  {
    (id, date) => DetailOf(id, date, site.details(id), site.files(id))
  }

  class PressReleaseScraper {
    var targetYear: int
    var seenIds: set<string>
    var collected: seq<Record>
    var store: Option<seq<Record>>
    /** The ids whose detail page was requested, in order. */
    ghost var fetched: seq<string>

    /** The scraper's state as a Progress of a run with the given counter
        and stop flag. */
    ghost function State(total: nat, stop: bool): Progress
      reads this
    {
      Progress(seenIds, collected, store, total, stop, fetched)
    }

    /** A scraper for the target year over the spreadsheet (None: there is
        no file); the ids the spreadsheet holds count as seen. */
    constructor (year: int, existing: Option<seq<Record>>)
      ensures targetYear == year && store == existing && collected == [] && fetched == []
      ensures seenIds == StoredIds(existing) && Synced(State(0, false))
    {
      targetYear := year;
      store := existing;
      collected := [];
      fetched := [];
      seenIds := StoredIds(existing);
    }

    /** save_data. */
    method SaveData()
      modifies this
      ensures State(0, false) == Flush(old(State(0, false)))
      ensures targetYear == old(targetYear)
    {
      if collected == [] {
        return;
      }
      store := Some(Merge(store, collected));
      collected := [];
    }

    /** get_list_page. */
    method GetListPage(site: Site, page: nat, ghost pages: nat -> seq<(string, string)>)
      returns (items: seq<(string, string)>)
      requires ServesLists(pages, site)
      ensures items == pages(page)
      ensures page >= |site.lists| ==> items == []
    {
      items := Listing.GetListPage(PageHtml(site, page), site.today);
    }

    /** get_detail_page. */
    method GetDetailPage(site: Site, id: string, date: string, ghost detail: (string, string) -> Option<Record>)
      returns (data: Option<Record>)
      requires ServesDetails(detail, site)
      ensures data == detail(id, date)
    {
      data := GetDetail(id, date, site.details(id), site.files(id));
    }

    /** The seen check and the fetch of one item. brk says the loop stops
        after it. */
    method FetchItem(id: string, date: string, site: Site,
                     ghost detail: (string, string) -> Option<Record>, testMode: bool, total0: nat)
      returns (total: nat, brk: bool)
      requires ServesDetails(detail, site)
      modifies this
      ensures targetYear == old(targetYear)
      ensures (State(total, brk), brk) == FetchStep(id, date, Config(targetYear, testMode), detail, old(State(total0, false)))
    {
      total, brk := total0, false;
      if id in seenIds && !testMode {
        return;
      }
      fetched := fetched + [id];
      var data := GetDetailPage(site, id, date, detail);
      if data.Some? {
        collected := collected + [data.value];
        seenIds := seenIds + {id};
        total := total + 1;
        if testMode && total >= TestLimit {
          brk := true;
        }
      }
    }

    /** The loop over the items of one page. */
    method CollectPage(items: seq<(string, string)>, site: Site, ghost detail: (string, string) -> Option<Record>,
                       testMode: bool, total0: nat)
      returns (total: nat, stop: bool)
      requires ServesDetails(detail, site)
      modifies this
      ensures State(total, stop) == ItemsFrom(items, 0, Config(targetYear, testMode), detail, old(State(total0, false)))
      ensures targetYear == old(targetYear)
    {
      total, stop := total0, false;
      ghost var cfg := Config(targetYear, testMode);
      ghost var start := State(total, stop);
      var idx := 0;
      while idx < |items|
        invariant idx <= |items| && targetYear == cfg.year
        invariant ItemsFrom(items, idx, cfg, detail, State(total, false)) == ItemsFrom(items, 0, cfg, detail, start)
      {
        var dt := ParseDate(items[idx].1);
        if dt.Some? && dt.value.year < targetYear {
          stop := true;
          break;
        }
        var brk;
        total, brk := FetchItem(items[idx].0, items[idx].1, site, detail, testMode, total);
        if brk {
          stop := true;
          break;
        }
        idx := idx + 1;
      }
    }

    /** run from the start page. */
    method Run(site: Site, ghost pages: nat -> seq<(string, string)>,
               ghost detail: (string, string) -> Option<Record>, testMode: bool)
      requires ServesLists(pages, site) && ServesDetails(detail, site)
      modifies this
      ensures var r := RunFrom(pages, |site.lists|, 0, Config(targetYear, testMode), detail, old(State(0, false)));
              seenIds == r.seen && collected == r.collected && store == r.store && fetched == r.fetched
      ensures targetYear == old(targetYear)
    {
      var page := 0;
      var stop := false;
      var total := 0;
      ghost var cfg := Config(targetYear, testMode);
      ghost var start := State(total, stop);
      while !stop
        invariant page <= |site.lists| && targetYear == cfg.year
        invariant RunFrom(pages, |site.lists|, page, cfg, detail, State(total, stop)) ==
                  RunFrom(pages, |site.lists|, 0, cfg, detail, start)
        decreases |site.lists| - page
      {
        var items := GetListPage(site, page, pages);
        if items == [] {
          break;
        }
        total, stop := CollectPage(items, site, detail, testMode, total);
        if collected != [] {
          SaveData();
        }
        page := page + 1;
        if testMode && stop {
          break;
        }
      }
    }
  }
}
