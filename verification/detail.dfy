/** A release's detail page (scraper.py:207-271): title, department, body,
    summary, and the attachments downloaded into the release's folder. */
module Detail {
  import opened Text
  import opened Utils
  import opened Attachment
  import opened Records

  /** The detail page URL of a release. */
  function DetailUrl(id: string): string {
    BaseUrl + "/bbs/view.do?sCode=user&mPid=208&mId=307&bbsSeqNo=94&nttSeqNo=" + id
  }

  /** The title used when the page has no title element ("제목없음_"). */
  const NoTitle: string := "\U{C81C}\U{BAA9}\U{C5C6}\U{C74C}_"

  /** The label of the department term ("부서"). */
  const DeptLabel: string := "\U{BD80}\U{C11C}"

  /** A fetched detail page: the text of the title element, each term of
      the summary list with the text of the description that follows it,
      the text of the two candidate body elements, and the raw page text
      the download links are read from. */
  datatype DetailHtml = DetailHtml(title: Option<string>, terms: seq<(string, Option<string>)>,
                                   notcon: Option<string>, pc: Option<string>, text: string)

  /** The title: the cleaned title text, or NoTitle and the id. */
  function TitleOf(id: string, h: DetailHtml): string {
    match h.title
    case Some(t) => CleanText(t)
    case None => NoTitle + id
  }

  /** The department: the cleaned description of the first term that
      mentions the label; empty when there is none or it has no
      description. */
  function DeptOf(terms: seq<(string, Option<string>)>): string
    decreases |terms|
  {
    if terms == [] then ""
    else if Occurs(DeptLabel, terms[0].0) then
      match terms[0].1
      case Some(d) => CleanText(d)
      case None => ""
    else DeptOf(terms[1..])
  }

  /** The department loop: stops at the first term mentioning the label. */
  method FindDept(terms: seq<(string, Option<string>)>) returns (dept: string)
    ensures dept == DeptOf(terms)
  {
    dept := "";
    var i := 0;
    while i < |terms|
      invariant i <= |terms|
      invariant DeptOf(terms) == DeptOf(terms[i..])
    {
      assert terms[i..][1..] == terms[i + 1..];
      if Occurs(DeptLabel, terms[i].0) {
        if terms[i].1.Some? {
          dept := CleanText(terms[i].1.value);
        }
        break;
      }
      i := i + 1;
    }
  }

  /** Term i is the first to mention the label. */
  predicate FirstDeptTerm(terms: seq<(string, Option<string>)>, i: int) {
    0 <= i < |terms| && Occurs(DeptLabel, terms[i].0) &&
    forall j :: 0 <= j < i ==> !Occurs(DeptLabel, terms[j].0)
  }

  /** The department comes from the first term mentioning the label, and
      is empty when no term does. */
  lemma {:induction false} DeptOfSpec(terms: seq<(string, Option<string>)>)
    ensures (forall j :: 0 <= j < |terms| ==> !Occurs(DeptLabel, terms[j].0)) ==> DeptOf(terms) == ""
    ensures forall i :: FirstDeptTerm(terms, i) ==>
              DeptOf(terms) == match terms[i].1 case Some(d) => CleanText(d) case None => ""
    decreases |terms|
  {
    if terms != [] && !Occurs(DeptLabel, terms[0].0) {
      var tail := terms[1..];
      DeptOfSpec(tail);
      forall i | FirstDeptTerm(terms, i)
        ensures DeptOf(terms) == match terms[i].1 case Some(d) => CleanText(d) case None => ""
      {
        assert i > 0 && tail[i - 1] == terms[i];
        assert FirstDeptTerm(tail, i - 1) by {
          forall j | 0 <= j < i - 1 ensures !Occurs(DeptLabel, tail[j].0) {
            assert tail[j] == terms[j + 1];
          }
        }
      }
      if forall j :: 0 <= j < |terms| ==> !Occurs(DeptLabel, terms[j].0) {
        assert forall j :: 0 <= j < |tail| ==> tail[j] == terms[j + 1];
      }
    }
  }

  /** The body: the first body element present, cleaned; empty when
      neither is present. */
  function ContentOf(h: DetailHtml): string {
    match (if h.notcon.Some? then h.notcon else h.pc)
    case Some(t) => CleanText(t)
    case None => ""
  }

  // ---------------------------------------------------------------------
  // The download references (scraper.py:240)
  // ---------------------------------------------------------------------

  /** One match of fn_download\('(\d+)',\s*'(\d+)',\s*'([^']+)'\): the
      attachment number, the file order, the extension, and where the
      match ends. */
  datatype DownloadRef = DownloadRef(atch: string, ord: string, ext: string, end: nat)

  /** The pattern tried at p. Every repetition in it is followed by a
      character it cannot consume, so the greedy reading is the only one. */
  function DownloadRefAt(s: string, p: nat): (r: Option<DownloadRef>)
    ensures r.Some? ==> p < r.value.end <= |s|
    ensures r.Some? ==> r.value.atch != [] && AllDigits(r.value.atch) && r.value.ord != [] && AllDigits(r.value.ord)
  {
    if !StartsAt(s, p, "fn_download('") then None
    else
      var a := DigitSpan(s, p + 13);
      if a == p + 13 || !StartsAt(s, a, "',") then None
      else
        var b := SkipSpace(s, a + 2);
        if !StartsAt(s, b, "'") then None
        else
          var c := DigitSpan(s, b + 1);
          if c == b + 1 || !StartsAt(s, c, "',") then None
          else
            var d := SkipSpace(s, c + 2);
            if !StartsAt(s, d, "'") then None
            else
              var e := SpanNot(s, d + 1, '\'');
              if e == d + 1 || !StartsAt(s, e, "')") then None
              else Some(DownloadRef(s[p + 13..a], s[b + 1..c], s[d + 1..e], e + 2))
  }

  function RefEnd(r: DownloadRef): nat {
    r.end
  }

  /** re.findall of the download pattern over the page text, as (number,
      order) pairs. */
  function DownloadRefs(text: string): (r: seq<(string, string)>)
    ensures |r| == |FindAll(text, 0, DownloadRefAt, RefEnd)|
    ensures forall k :: 0 <= k < |r| ==>
              r[k] == (FindAll(text, 0, DownloadRefAt, RefEnd)[k].atch, FindAll(text, 0, DownloadRefAt, RefEnd)[k].ord)
  {
    var ms := FindAll(text, 0, DownloadRefAt, RefEnd);
    seq(|ms|, k requires 0 <= k < |ms| => (ms[k].atch, ms[k].ord))
  }

  /** re.findall of the download pattern: each match is the pattern
      matched at the leftmost position where it matches from the end of
      the previous match, so the matches do not overlap; after the last
      match the pattern matches nowhere, so no reference is missed. */
  lemma DownloadRefsSound(text: string)
    ensures var ms := FindAll(text, 0, DownloadRefAt, RefEnd);
      forall k :: 0 <= k < |ms| ==> FoundFrom(text, ResumeAt(ms, k, 0, RefEnd), ms[k], DownloadRefAt, RefEnd)
    ensures var ms := FindAll(text, 0, DownloadRefAt, RefEnd);
      forall k :: 0 <= k < |ms| ==>
        Leftmost(text, ResumeAt(ms, k, 0, RefEnd), DownloadRefAt).Some? &&
        DownloadRefAt(text, Leftmost(text, ResumeAt(ms, k, 0, RefEnd), DownloadRefAt).value) == Some(ms[k])
    ensures var ms := FindAll(text, 0, DownloadRefAt, RefEnd);
      Leftmost(text, ResumeAt(ms, |ms|, 0, RefEnd), DownloadRefAt).None?
  {
    FindAllSound(text, 0, DownloadRefAt, RefEnd);
    FindAllLeftmost(text, 0, DownloadRefAt, RefEnd);
  }

  // ---------------------------------------------------------------------
  // get_detail_page
  // ---------------------------------------------------------------------

  /** What a release's downloads depend on: the download root, the
      network (files(i, url) answers the request made at step i, None when
      it fails) and the percent-decoder. */
  datatype Files = Files(root: string, files: (nat, string) -> Option<Response>, unquote: string -> string)

  /** The environment the downloads of a release run in: its folder is
      named after the date and the title. */
  function DetailEnv(id: string, date: string, h: DetailHtml, net: Files): Env {
    Env(FolderName(date, TitleOf(id, h)), net.root, net.files, net.unquote)
  }

  /** The attachments saved for a release. */
  function DetailDownloads(id: string, date: string, h: DetailHtml, net: Files): Saved {
    Downloads(DownloadRefs(h.text), 0, Downloader(DetailEnv(id, date, h, net)), Saved([], [], {}))
  }

  /** The record of a release; None when the page could not be fetched. */
  function DetailOf(id: string, date: string, page: Option<DetailHtml>, net: Files): Option<Record> {
    match page
    case None => None
    case Some(h) =>
      var content := ContentOf(h);
      var saved := DetailDownloads(id, date, h, net);
      Some(Record(id, TitleOf(id, h), date, DeptOf(h.terms), DetailUrl(id), content, Summarize(content, 3),
                  Join(", ", saved.names), Join(", ", saved.paths)))
  }

  /** get_detail_page, with the fetched page and the download responses as
      inputs. */
  method GetDetail(id: string, date: string, page: Option<DetailHtml>, net: Files) returns (r: Option<Record>)
    ensures r == DetailOf(id, date, page, net)
  {
    if page.None? {
      return None;
    }
    var h := page.value;
    var title := TitleOf(id, h);
    var dept := FindDept(h.terms);
    var content := ContentOf(h);
    var summary := Summarize(content, 3);
    var refs := DownloadRefs(h.text);
    var folder := FolderName(date, title);
    var names, paths, done := DownloadAll(refs, Env(folder, net.root, net.files, net.unquote));
    r := Some(Record(id, title, date, dept, DetailUrl(id), content, summary, Join(", ", names), Join(", ", paths)));
  }

  /** The attachments of a release: as many names as paths, one per
      distinct download URL, each URL one of the page's references whose
      download succeeded, every reference whose download succeeds among
      them, and no empty name. */
  lemma DetailDownloadsOnce(id: string, date: string, h: DetailHtml, net: Files)
    ensures var saved, refs, dl := DetailDownloads(id, date, h, net), DownloadRefs(h.text), Downloader(DetailEnv(id, date, h, net));
      && |saved.names| == |saved.paths| == |saved.done|
      && (forall k :: 0 <= k < |saved.names| ==> saved.names[k] != "")
      && (forall u :: u in saved.done ==>
            exists j :: 0 <= j < |refs| && DownUrl(refs[j].0, refs[j].1) == u && Succeeds(dl, j, u))
      && (forall j :: 0 <= j < |refs| && Succeeds(dl, j, DownUrl(refs[j].0, refs[j].1)) ==>
            DownUrl(refs[j].0, refs[j].1) in saved.done)
  {
    DownloadsOnce(DownloadRefs(h.text), 0, Downloader(DetailEnv(id, date, h, net)), Saved([], [], {}));
  }
}
