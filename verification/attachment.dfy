/** Attachments of a press release (scraper.py:73-126 and 240-255): how
    download_attachment names the file it saves, the folder the files of one
    release go to, and the loop that downloads each attachment once. */
module Attachment {
  import opened Text

  /** The parts of an HTTP response that naming depends on: the
      Content-Disposition header if present, the final URL and whether
      redirects were followed (a non-empty response.history). */
  datatype Response = Response(disposition: Option<string>, finalUrl: string, redirected: bool)

  const ExtPrefix: string := "filename*=UTF-8''"
  const QuotedPrefix: string := "filename=\""

  // ---------------------------------------------------------------------
  // The file name (scraper.py:79-107)
  // ---------------------------------------------------------------------

  /** The pattern filename\*=UTF-8''(.+) tried at p: the value is the rest
      of the line and must not be empty. */
  function ExtValueAt(cd: string, p: nat): (r: Option<string>)
    ensures r.Some? ==> r.value != [] && '\n' !in r.value
    ensures r.Some? ==> StartsAt(cd, p, ExtPrefix + r.value)
  {
    if !StartsAt(cd, p, ExtPrefix) then None
    else
      var q := p + |ExtPrefix|;
      var e := SpanNot(cd, q, '\n');
      if e == q then None
      else
        assert cd[p..e] == cd[p..q] + cd[q..e];
        Some(cd[q..e])
  }

  /** The pattern filename="([^"]+)" tried at p: a non-empty value without
      quotes, closed by a quote. */
  function QuotedValueAt(cd: string, p: nat): (r: Option<string>)
    ensures r.Some? ==> r.value != [] && '"' !in r.value
    ensures r.Some? ==> StartsAt(cd, p, QuotedPrefix + r.value + "\"")
  {
    if !StartsAt(cd, p, QuotedPrefix) then None
    else
      var q := p + |QuotedPrefix|;
      var e := SpanNot(cd, q, '"');
      if e == q || e == |cd| then None
      else
        assert cd[p..e + 1] == cd[p..q] + cd[q..e] + [cd[e]];
        Some(cd[q..e])
  }

  /** The first result of re.findall with the filename* pattern. */
  function ExtParam(cd: string): Option<string> {
    match Leftmost(cd, 0, ExtValueAt)
    case None => None
    case Some(p) => ExtValueAt(cd, p)
  }

  /** The first result of re.findall with the filename="..." pattern. */
  function QuotedParam(cd: string): Option<string> {
    match Leftmost(cd, 0, QuotedValueAt)
    case None => None
    case Some(p) => QuotedValueAt(cd, p)
  }

  /** ExtParam finds the value of the leftmost match, and fails only when
      the pattern matches nowhere. */
  lemma {:induction false} ExtParamSpec(cd: string)
    ensures ExtParam(cd).Some? <==> exists p: nat :: p <= |cd| && ExtValueAt(cd, p).Some?
    ensures ExtParam(cd).Some? ==>
              exists p: nat :: p <= |cd| && ExtValueAt(cd, p) == ExtParam(cd) &&
                forall j: nat :: j < p ==> ExtValueAt(cd, j).None?
  {
    var k := Leftmost(cd, 0, ExtValueAt);
    if k.Some? {
      var p := k.value;
      assert ExtValueAt(cd, p) == ExtParam(cd);
      assert forall j: nat :: j < p ==> ExtValueAt(cd, j).None?;
    }
  }

  /** QuotedParam finds the value of the leftmost match, and fails only
      when the pattern matches nowhere. */
  lemma {:induction false} QuotedParamSpec(cd: string)
    ensures QuotedParam(cd).Some? <==> exists p: nat :: p <= |cd| && QuotedValueAt(cd, p).Some?
    ensures QuotedParam(cd).Some? ==>
              exists p: nat :: p <= |cd| && QuotedValueAt(cd, p) == QuotedParam(cd) &&
                forall j: nat :: j < p ==> QuotedValueAt(cd, j).None?
  {
    var k := Leftmost(cd, 0, QuotedValueAt);
    if k.Some? {
      var p := k.value;
      assert QuotedValueAt(cd, p) == QuotedParam(cd);
      assert forall j: nat :: j < p ==> QuotedValueAt(cd, j).None?;
    }
  }

  /** os.path.basename with '/' as the separator: the text after the last
      '/'. */
  function Basename(path: string): (r: string)
    ensures |r| <= |path| && r == path[|path| - |r|..] && '/' !in r
    ensures |r| < |path| ==> path[|path| - |r| - 1] == '/'
  {
    match LastIndexOf(path, '/')
    case None => path
    case Some(k) => path[k + 1..]
  }

  /** The name the Content-Disposition header gives, "" when it gives none:
      the filename* value is preferred to the quoted filename value; either
      is percent-decoded by unquote. */
  function HeaderFilename(resp: Response, unquote: string -> string): string {
    match resp.disposition
    case None => ""
    case Some(cd) =>
      match ExtParam(cd)
      case Some(v) => unquote(v)
      case None =>
        match QuotedParam(cd)
        case Some(v) => unquote(v)
        case None => ""
  }

  /** The name download_attachment settles on before cleaning it: the
      header's name, or else the decoded base name of the URL the response
      came from. */
  function ChooseFilename(resp: Response, url: string, unquote: string -> string): string {
    var h := HeaderFilename(resp, unquote);
    if h != "" then h
    else unquote(Basename(if resp.redirected then resp.finalUrl else url))
  }

  /** The order in which the candidates are tried. A filename* match
      anywhere in the header wins over any quoted filename; the quoted one
      is used only when there is no filename* match; the URL is used only
      when the header yields the empty name. */
  lemma {:induction false} FilenamePriority(resp: Response, url: string, unquote: string -> string)
    ensures resp.disposition.Some? && ExtParam(resp.disposition.value).Some? ==>
              HeaderFilename(resp, unquote) == unquote(ExtParam(resp.disposition.value).value)
    ensures resp.disposition.Some? && (forall p: nat :: p <= |resp.disposition.value| ==>
              ExtValueAt(resp.disposition.value, p).None?) &&
              QuotedParam(resp.disposition.value).Some? ==>
              HeaderFilename(resp, unquote) == unquote(QuotedParam(resp.disposition.value).value)
    ensures HeaderFilename(resp, unquote) != "" ==> ChooseFilename(resp, url, unquote) == HeaderFilename(resp, unquote)
    ensures HeaderFilename(resp, unquote) == "" ==>
              ChooseFilename(resp, url, unquote) ==
                unquote(Basename(if resp.redirected then resp.finalUrl else url))
  {
    if resp.disposition.Some? {
      ExtParamSpec(resp.disposition.value);
    }
  }

  /** Every character of s is '.'. */
  predicate AllDots(s: string) {
    forall i :: 0 <= i < |s| ==> s[i] == '.'
  }

  /** os.path.splitext with '/' as the separator: the extension runs from
      the last '.' of the last path component, unless only dots precede
      that '.' within the component. */
  function SplitExt(f: string): (r: (string, string))
    ensures r.0 + r.1 == f
    ensures r.1 == [] || (r.1[0] == '.' && '.' !in r.1[1..] && '/' !in r.1)
  {
    match LastIndexOf(f, '.')
    case None => (f, [])
    case Some(d) =>
      var start := match LastIndexOf(f, '/') case None => 0 case Some(k) => k + 1;
      if d < start || AllDots(f[start..d]) then (f, [])
      else
        assert f[d..][1..] == f[d + 1..];
        (f[..d], f[d..])
  }

  /** Splitting a name and an extension put together gives them back. */
  lemma {:induction false} SplitExtJoin(name: string, ext: string)
    requires '/' !in name && !AllDots(name)
    requires ext != [] && ext[0] == '.' && '.' !in ext[1..] && '/' !in ext
    ensures SplitExt(name + ext) == (name, ext)
  {
    var f := name + ext;
    assert f[|name|] == '.';
    assert f[|name| + 1..] == ext[1..];
    var d := LastIndexOf(f, '.');
    assert d.Some?;
    assert d.value <= |name| by {
      forall j | |name| < j < |f| ensures f[j] != '.' {
        assert f[j] == ext[1..][j - |name| - 1];
      }
    }
    assert d.value >= |name| by {
      forall j | d.value < j < |f| ensures f[j] != '.' {
        assert f[j] == f[d.value + 1..][j - d.value - 1];
      }
    }
    assert '/' !in f by {
      forall i | 0 <= i < |f| ensures f[i] != '/' {
        if i < |name| { assert f[i] == name[i]; } else { assert f[i] == ext[i - |name|]; }
      }
    }
    assert f[..|name|] == name && f[|name|..] == ext;
    assert f[0..|name|] == name;
  }

  /** The file name download_attachment saves under: the chosen name with
      the forbidden characters dropped and the part before the extension
      cut to 80 characters. */
  function CleanFilename(f: string): (r: string)
    ensures NoForbidden(r)
  {
    var s := Sanitize(f);
    var (name, ext) := SplitExt(s);
    var r := Take(name, 80) + ext;
    assert NoForbidden(r) by {
      forall i | 0 <= i < |r| ensures !Forbidden(r[i]) {
        if i < |Take(name, 80)| { assert r[i] == s[i]; } else { assert r[i] == s[|name| + i - |Take(name, 80)|]; }
      }
    }
    r
  }

  /** The cleaned name is the sanitised name's stem, cut to at most 80
      characters (and only when it is longer), followed by its extension
      unchanged; re-splitting it gives the same extension back whenever the
      cut stem keeps a character other than '.'. */
  lemma {:induction false} CleanFilenameSpec(f: string)
    ensures var (name, ext) := SplitExt(Sanitize(f));
      exists stem :: CleanFilename(f) == stem + ext && |stem| <= 80 && StartsWith(name, stem) &&
        (|name| <= 80 ==> stem == name) && (|name| > 80 ==> stem == name[..80])
    ensures var (name, ext) := SplitExt(Sanitize(f));
      ext != [] && !AllDots(Take(name, 80)) ==> SplitExt(CleanFilename(f)) == (Take(name, 80), ext)
  {
    var s := Sanitize(f);
    var (name, ext) := SplitExt(s);
    var stem := Take(name, 80);
    assert CleanFilename(f) == stem + ext;
    if ext != [] && !AllDots(stem) {
      assert '/' !in stem by {
        forall i | 0 <= i < |stem| ensures stem[i] != '/' { assert stem[i] == s[i]; }
      }
      SplitExtJoin(stem, ext);
    }
  }

  // ---------------------------------------------------------------------
  // The folder of a release (scraper.py:243-244)
  // ---------------------------------------------------------------------

  /** The title part of the folder name: the title without forbidden
      characters, cut to 30 characters, stripped. */
  function FolderTitle(title: string): (r: string)
    ensures NoForbidden(r) && NoEdgeSpace(r) && |r| <= 30
  {
    var cut := Take(Sanitize(title), 30);
    assert NoForbidden(cut) by {
      forall i | 0 <= i < |cut| ensures !Forbidden(cut[i]) { assert cut[i] == Sanitize(title)[i]; }
    }
    StripNoForbidden(cut);
    Strip(cut)
  }

  /** The folder a release's attachments are saved in: its date, '_', and
      the title part. */
  function FolderName(date: string, title: string): (r: string)
    ensures |r| == |date| + 1 + |FolderTitle(title)|
    ensures r[..|date|] == date && r[|date|] == '_' && r[|date| + 1..] == FolderTitle(title)
  {
    date + "_" + FolderTitle(title)
  }

  // ---------------------------------------------------------------------
  // Downloading the attachments of one release (scraper.py:240-255)
  // ---------------------------------------------------------------------

  const BaseUrl: string := "https://www.msit.go.kr"

  /** The download URL of the attachment fn_download('atch', 'ord', ...). */
  function DownUrl(atch: string, ord: string): string {
    BaseUrl + "/ssm/file/fileDown.do?atchFileNo=" + atch + "&fileOrd=" + ord + "&fileBtn=A"
  }

  /** os.path.join with '/' as the separator. */
  function JoinPath(dir: string, name: string): string {
    dir + "/" + name
  }

  /** What the downloads depend on: the release's folder, the download
      root, the network (fetch(i, url) is the response to the request made
      at step i, None when it fails) and the percent-decoder. */
  datatype Env = Env(folder: string, root: string,
                     fetch: (nat, string) -> Option<Response>, unquote: string -> string)

  /** download_attachment: None on failure, else the saved name and path. */
  function Download(env: Env, i: nat, url: string): Option<(string, string)> {
    match env.fetch(i, url)
    case None => None
    case Some(resp) =>
      var name := CleanFilename(ChooseFilename(resp, url, env.unquote));
      Some((name, JoinPath(JoinPath(env.root, env.folder), name)))
  }

  /** download_attachment as a function of the step and the URL. */
  function Downloader(env: Env): (nat, string) -> Option<(string, string)> {
    (i: nat, url: string) => Download(env, i, url)
  }

  /** A download counts when it returns a non-empty name. */
  predicate Succeeds(dl: (nat, string) -> Option<(string, string)>, i: nat, url: string) {
    dl(i, url).Some? && dl(i, url).value.0 != ""
  }

  /** The attachments list, the file paths and the set of URLs done. */
  datatype Saved = Saved(names: seq<string>, paths: seq<string>, done: set<string>)

  /** The loop from step i on: a URL already done is skipped; a successful
      download is recorded and its URL marked done. */
  function Downloads(refs: seq<(string, string)>, i: nat,
                     dl: (nat, string) -> Option<(string, string)>, acc: Saved): Saved
    decreases |refs| - i
  {
    if i >= |refs| then acc
    else
      var url := DownUrl(refs[i].0, refs[i].1);
      if url in acc.done || !Succeeds(dl, i, url) then Downloads(refs, i + 1, dl, acc)
      else
        var (name, path) := dl(i, url).value;
        Downloads(refs, i + 1, dl, Saved(acc.names + [name], acc.paths + [path], acc.done + {url}))
  }

  /** Each URL is downloaded at most once: there are as many saved files
      as URLs done, each URL done is one of the release's download URLs
      whose download succeeded at some step, and every saved name is
      non-empty. Conversely, every reference whose download succeeds at
      its step has its URL done. */
  lemma {:induction false} DownloadsOnce(refs: seq<(string, string)>, i: nat,
                                         dl: (nat, string) -> Option<(string, string)>, acc: Saved)
    requires |acc.names| == |acc.paths| == |acc.done|
    ensures var r := Downloads(refs, i, dl, acc);
      && |r.names| == |r.paths| == |r.done|
      && acc.done <= r.done
      && acc.names <= r.names
      && (forall k :: |acc.names| <= k < |r.names| ==> r.names[k] != "")
      && (forall u :: u in r.done && u !in acc.done ==>
            exists j :: i <= j < |refs| && DownUrl(refs[j].0, refs[j].1) == u && Succeeds(dl, j, u))
      && (forall j :: i <= j < |refs| && Succeeds(dl, j, DownUrl(refs[j].0, refs[j].1)) ==>
            DownUrl(refs[j].0, refs[j].1) in r.done)
    decreases |refs| - i
  {
    DownloadsComplete(refs, i, dl, acc);
    if i < |refs| {
      var url := DownUrl(refs[i].0, refs[i].1);
      if url in acc.done || !Succeeds(dl, i, url) {
        DownloadsOnce(refs, i + 1, dl, acc);
      } else {
        var (name, path) := dl(i, url).value;
        var acc' := Saved(acc.names + [name], acc.paths + [path], acc.done + {url});
        assert |acc'.done| == |acc.done| + 1;
        DownloadsOnce(refs, i + 1, dl, acc');
        var r := Downloads(refs, i + 1, dl, acc');
        assert acc'.names[|acc.names|] == name;
        forall k | |acc.names| <= k < |r.names| ensures r.names[k] != "" {
          if k == |acc.names| { assert r.names[k] == acc'.names[k]; }
        }
      }
    }
  }

  /** No successful download is lost: the URLs done only grow, and the
      URL of every reference whose download succeeds at its step is done. */
  lemma {:induction false} DownloadsComplete(refs: seq<(string, string)>, i: nat,
                                             dl: (nat, string) -> Option<(string, string)>, acc: Saved)
    ensures var r := Downloads(refs, i, dl, acc);
      && acc.done <= r.done
      && (forall j :: i <= j < |refs| && Succeeds(dl, j, DownUrl(refs[j].0, refs[j].1)) ==>
            DownUrl(refs[j].0, refs[j].1) in r.done)
    decreases |refs| - i
  {
    if i < |refs| {
      var url := DownUrl(refs[i].0, refs[i].1);
      if url in acc.done || !Succeeds(dl, i, url) {
        DownloadsComplete(refs, i + 1, dl, acc);
      } else {
        var (name, path) := dl(i, url).value;
        DownloadsComplete(refs, i + 1, dl, Saved(acc.names + [name], acc.paths + [path], acc.done + {url}));
      }
    }
  }

  /** The loop of get_detail_page over the fn_download references. */
  method DownloadAll(refs: seq<(string, string)>, env: Env)
    returns (names: seq<string>, paths: seq<string>, done: set<string>)
    ensures Saved(names, paths, done) == Downloads(refs, 0, Downloader(env), Saved([], [], {}))
  {
    names, paths, done := DownloadLoop(refs, env, Downloader(env));
  }

  /** dl answers every request the way download_attachment does in env. */
  ghost predicate Fetches(env: Env, dl: (nat, string) -> Option<(string, string)>) {
    forall i, url {:trigger Download(env, i, url)} :: dl(i, url) == Download(env, i, url)
  }

  /** One call of download_attachment. */
  method DownloadOne(env: Env, i: nat, url: string, ghost dl: (nat, string) -> Option<(string, string)>)
    returns (got: Option<(string, string)>)
    requires Fetches(env, dl)
    ensures got == dl(i, url)
  {
    got := Download(env, i, url);
  }

  /** The loop itself, against any dl that answers as env does. */
  method DownloadLoop(refs: seq<(string, string)>, env: Env, ghost dl: (nat, string) -> Option<(string, string)>)
    returns (names: seq<string>, paths: seq<string>, done: set<string>)
    requires Fetches(env, dl)
    ensures Saved(names, paths, done) == Downloads(refs, 0, dl, Saved([], [], {}))
  {
    names, paths, done := [], [], {};
    var i := 0;
    while i < |refs|
      invariant i <= |refs|
      invariant Downloads(refs, i, dl, Saved(names, paths, done)) == Downloads(refs, 0, dl, Saved([], [], {}))
    {
      var url := DownUrl(refs[i].0, refs[i].1);
      if url !in done {
        var got := DownloadOne(env, i, url, dl);
        if got.Some? && got.value.0 != "" {
          names := names + [got.value.0];
          paths := paths + [got.value.1];
          done := done + {url};
        }
      }
      i := i + 1;
    }
  }
}
