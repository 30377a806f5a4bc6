/** The DSpace full-text resolver of the legacy harvester: turning the anchors of a landing page
    into a numbered dictionary of bitstream URLs, and saving what those URLs return. */
module DSpace {
  import opened Wrappers
  import opened PyStrings

  /** The `href` attributes of the anchors inside the page's `panel panel-info` container, in
      document order; `None` for an anchor that has no `href`. */
  type Anchors = seq<Option<string>>

  /** One entry of the resolver's dictionary; the dictionary is the sequence of entries in
      insertion order. */
  datatype Entry = Entry(key: string, url: string)

  /** The text every bitstream URL must contain: the landing URL with each `handle` replaced by
      `bitstream`. */
  function MatchPattern(url: string): string
  {
    Replace(url, "handle", "bitstream")
  }

  /** `scheme://netloc`, to which each relative `href` is appended. */
  function SiteRoot(scheme: string, netloc: string): string
  {
    scheme + "://" + netloc
  }

  /** The absolute URL of an anchor whose `href` is present and non-empty. */
  function Candidate(root: string, href: Option<string>): Option<string>
  {
    if href.Some? && href.value != "" then Some(root + href.value) else None
  }

  /** The anchor leads to a URL that contains the pattern. */
  predicate Passes(root: string, pattern: string, href: Option<string>)
  {
    Candidate(root, href).Some? && Contains(Candidate(root, href).value, pattern)
  }

  /** The URL accepted last, or the empty string the loop starts from. */
  function LastOf(urls: seq<string>): string
  {
    if urls == [] then "" else urls[|urls| - 1]
  }

  /** The URLs the anchor loop accepts, in acceptance order: an anchor is accepted when it
      passes the filter and differs from the URL accepted last. */
  function Accepted(root: string, pattern: string, anchors: Anchors): seq<string>
    decreases |anchors|
  {
    if anchors == [] then []
    else
      var prev := Accepted(root, pattern, anchors[..|anchors| - 1]);
      var href := anchors[|anchors| - 1];
      if Passes(root, pattern, href) && Candidate(root, href).value != LastOf(prev) then
        prev + [Candidate(root, href).value]
      else
        prev
  }

  /** There are at most as many accepted URLs as anchors; every one starts with the site root and
      contains the pattern, and no URL is accepted twice in a row. */
  lemma {:induction false} AcceptedShape(root: string, pattern: string, anchors: Anchors)
    ensures var urls := Accepted(root, pattern, anchors);
      && |urls| <= |anchors|
      && (forall k :: 0 <= k < |urls| ==> root <= urls[k] && Contains(urls[k], pattern))
      && (forall k :: 0 < k < |urls| ==> urls[k - 1] != urls[k])
    decreases |anchors|
  {
    if anchors != [] {
      AcceptedShape(root, pattern, anchors[..|anchors| - 1]);
    }
  }

  /** Each accepted URL is the site root followed by the non-empty `href` of the anchor at the
      matching position of `src`, and those positions increase. */
  ghost predicate Traced(root: string, anchors: Anchors, urls: seq<string>, src: seq<nat>)
  {
    && |src| == |urls|
    && (forall k :: 0 <= k < |src| ==>
          src[k] < |anchors| && Candidate(root, anchors[src[k]]) == Some(urls[k]))
    && (forall k, l :: 0 <= k < l < |src| ==> src[k] < src[l])
  }

  /** Anchor `i` repeats the URL accepted at step `k`, the last acceptance before `i`. */
  ghost predicate RepeatsLast(root: string, anchors: Anchors, urls: seq<string>, src: seq<nat>,
                              i: nat, k: nat)
    requires |src| == |urls| && i < |anchors|
  {
    k < |src| && src[k] < i && (k + 1 == |src| || i < src[k + 1])
    && Candidate(root, anchors[i]) == Some(urls[k])
  }

  /** Every anchor that passes the filter and is not taken repeats the last accepted URL. */
  ghost predicate Complete(root: string, pattern: string, anchors: Anchors, urls: seq<string>,
                           src: seq<nat>)
    requires |src| == |urls|
  {
    forall i :: 0 <= i < |anchors| && i !in src && Passes(root, pattern, anchors[i]) ==>
      exists k :: RepeatsLast(root, anchors, urls, src, i, k)
  }

  /** Where the accepted URLs come from: each is the site root followed by the non-empty `href`
      of an anchor, the anchors are taken in increasing position, and an anchor that passes the
      filter but is not taken repeats the URL accepted most recently before it (even when only
      rejected anchors lie in between). */
  lemma {:induction false} AcceptedSources(root: string, pattern: string, anchors: Anchors)
    returns (src: seq<nat>)
    ensures Traced(root, anchors, Accepted(root, pattern, anchors), src)
    ensures Complete(root, pattern, anchors, Accepted(root, pattern, anchors), src)
    decreases |anchors|
  {
    if anchors == [] {
      src := [];
    } else {
      var n := |anchors| - 1;
      var pre := anchors[..n];
      var prev := Accepted(root, pattern, pre);
      var srcPre := AcceptedSources(root, pattern, pre);
      var href := anchors[n];
      if Passes(root, pattern, href) && Candidate(root, href).value != LastOf(prev) {
        src := AppendSource(root, pattern, anchors, pre, prev, Accepted(root, pattern, anchors), srcPre);
      } else {
        src := srcPre;
        KeepSources(root, pattern, anchors, srcPre);
      }
    }
  }

  /** The induction step of `AcceptedSources` when the last anchor is taken: its URL is appended
      to the URLs `prev` accepted before it. */
  lemma AppendSource(root: string, pattern: string, anchors: Anchors, pre: Anchors,
                     prev: seq<string>, urls: seq<string>, srcPre: seq<nat>)
    returns (src: seq<nat>)
    requires |anchors| > 0 && pre == anchors[..|anchors| - 1]
    requires Traced(root, pre, prev, srcPre) && Complete(root, pattern, pre, prev, srcPre)
    requires Candidate(root, anchors[|anchors| - 1]).Some?
    requires urls == prev + [Candidate(root, anchors[|anchors| - 1]).value]
    ensures src == srcPre + [|anchors| - 1]
    ensures Traced(root, anchors, urls, src)
    ensures Complete(root, pattern, anchors, urls, src)
  {
    var n := |anchors| - 1;
    src := srcPre + [n];
    assert forall i :: 0 <= i < n ==> pre[i] == anchors[i];
    forall i | 0 <= i < |anchors| && i !in src && Passes(root, pattern, anchors[i])
      ensures exists k :: RepeatsLast(root, anchors, urls, src, i, k)
    {
      assert i < n && i !in srcPre && Passes(root, pattern, pre[i]);
      var k :| RepeatsLast(root, pre, prev, srcPre, i, k);
      assert RepeatsLast(root, anchors, urls, src, i, k);
    }
  }

  /** The induction step of `AcceptedSources` when the last anchor is not taken. */
  lemma KeepSources(root: string, pattern: string, anchors: Anchors, srcPre: seq<nat>)
    requires |anchors| > 0
    requires var pre := anchors[..|anchors| - 1];
      && Traced(root, pre, Accepted(root, pattern, pre), srcPre)
      && Complete(root, pattern, pre, Accepted(root, pattern, pre), srcPre)
    requires var n := |anchors| - 1; var prev := Accepted(root, pattern, anchors[..n]);
      !(Passes(root, pattern, anchors[n]) && Candidate(root, anchors[n]).value != LastOf(prev))
    ensures Traced(root, anchors, Accepted(root, pattern, anchors), srcPre)
    ensures Complete(root, pattern, anchors, Accepted(root, pattern, anchors), srcPre)
  {
    var n := |anchors| - 1;
    var pre := anchors[..n];
    var prev := Accepted(root, pattern, pre);
    var urls := Accepted(root, pattern, anchors);
    assert urls == prev;
    assert forall i :: 0 <= i < n ==> pre[i] == anchors[i];
    forall i | 0 <= i < |anchors| && i !in srcPre && Passes(root, pattern, anchors[i])
      ensures exists k :: RepeatsLast(root, anchors, urls, srcPre, i, k)
    {
      if i == n {
        assert prev != [];
        assert RepeatsLast(root, anchors, urls, srcPre, i, |prev| - 1);
      } else {
        assert Passes(root, pattern, pre[i]);
        var k :| RepeatsLast(root, pre, prev, srcPre, i, k);
        assert RepeatsLast(root, anchors, urls, srcPre, i, k);
      }
    }
  }

  /** An anchor that repeats the URL accepted last is dropped even when a rejected anchor lies
      between them: with `a` passing and `b` not, the anchors `a, a, b, a` give one URL. */
  lemma RepeatAfterRejectedDropped(root: string, pattern: string, a: string, b: string)
    requires a != "" && b != ""
    requires Contains(root + a, pattern) && !Contains(root + b, pattern)
    ensures Accepted(root, pattern, [Some(a), Some(a), Some(b), Some(a)]) == [root + a]
  {
    var anchors := [Some(a), Some(a), Some(b), Some(a)];
    assert anchors[..3][..2][..1][..0] == [];
    assert Accepted(root, pattern, anchors[..1]) == [root + a];
    assert anchors[..2][..1] == anchors[..1];
    assert Accepted(root, pattern, anchors[..2]) == [root + a];
    assert anchors[..3][..2] == anchors[..2];
    assert Accepted(root, pattern, anchors[..3]) == [root + a];
  }

  /** A URL is accepted again once a different URL has been accepted in between: two passing
      anchors `a, b, a` with different targets give three URLs. */
  lemma RepeatAfterOtherKept(root: string, pattern: string, a: string, b: string)
    requires a != "" && b != "" && a != b
    requires Contains(root + a, pattern) && Contains(root + b, pattern)
    ensures Accepted(root, pattern, [Some(a), Some(b), Some(a)]) == [root + a, root + b, root + a]
  {
    var anchors := [Some(a), Some(b), Some(a)];
    assert anchors[..2][..1][..0] == [];
    assert Accepted(root, pattern, anchors[..1]) == [root + a];
    assert anchors[..2][..1] == anchors[..1];
    assert root + a != root + b by { assert (root + a)[|root|..] == a; }
    assert Accepted(root, pattern, anchors[..2]) == [root + a, root + b];
  }

  /** The pattern is the landing URL itself exactly when the URL holds no `handle`. */
  lemma MatchPatternUnchangedIff(url: string)
    ensures MatchPattern(url) == url <==> !Contains(url, "handle")
  {
    ReplaceUnchangedIff(url, "handle", "bitstream");
  }

  /** The key of the entry at position `k`: `'download' + str(k)`. */
  function DownloadKey(k: nat): string
  {
    "download" + Decimal(k)
  }

  /** Entries at different positions get different keys, so no entry overwrites another. */
  lemma DownloadKeysDistinct(j: nat, k: nat)
    requires j != k
    ensures DownloadKey(j) != DownloadKey(k)
  {
    if DownloadKey(j) == DownloadKey(k) {
      assert DownloadKey(j)[8..] == Decimal(j) && DownloadKey(k)[8..] == Decimal(k);
      DecimalInjective(j, k);
    }
  }

  /** `get_urls_download_dspace` after the page has been fetched and parsed: the dictionary holds
      the accepted URLs, the `k`-th under the key `download<k>`. */
  method GetUrlsDownload(url: string, scheme: string, netloc: string, anchors: Anchors)
    returns (dictionary: seq<Entry>)
    ensures var urls := Accepted(SiteRoot(scheme, netloc), MatchPattern(url), anchors);
      && |dictionary| == |urls|
      && forall k :: 0 <= k < |dictionary| ==> dictionary[k] == Entry(DownloadKey(k), urls[k])
  {
    var cont := 0;
    dictionary := [];
    var urlDownload := "";
    var urlMod := Replace(url, "handle", "bitstream");
    var urlDom := scheme + "://" + netloc;
    for i := 0 to |anchors|
      invariant cont == |dictionary| == |Accepted(urlDom, urlMod, anchors[..i])|
      invariant urlDownload == LastOf(Accepted(urlDom, urlMod, anchors[..i]))
      invariant forall k :: 0 <= k < |dictionary| ==>
                  dictionary[k] == Entry(DownloadKey(k), Accepted(urlDom, urlMod, anchors[..i])[k])
    {
      assert anchors[..i + 1][..i] == anchors[..i];
      var href := anchors[i];
      if href.Some? && href.value != "" {
        var urlHref := urlDom + href.value;
        if Contains(urlHref, urlMod) && urlDownload != urlHref {
          urlDownload := urlHref;
          dictionary := dictionary + [Entry("download" + Decimal(cont), urlDownload)];
          cont := cont + 1;
        }
      }
    }
    assert anchors[..|anchors|] == anchors;
  }

  /** A byte of a response body. */
  newtype byte = x: int | 0 <= x < 256

  /** An HTTP response as `requests` returns it: the headers, keyed by lower-case name because
      `requests` looks header names up without regard to case, and the body. The body decodes to
      empty text exactly when it is empty. */
  datatype Response = Response(headers: map<string, string>, body: seq<byte>)

  /** The exceptions the download loop can raise. */
  datatype DownloadError =
    | RequestFailed   // `requests.get` raised (connection error, timeout, ...)
    | NoQuote         // `ValueError` from `index('"')` on a header without `"`
    | IsADirectory    // `open` was given a directory (the save directory or its parent)
    | UnboundCont     // `UnboundLocalError`: `cont` is read before it is ever assigned

  /** The file name taken from a `Content-Disposition` value: the text strictly between its first
      and its last `"`, or `None` where `index` raises because there is no `"` at all. */
  function DispositionFilename(cd: string): (r: Option<string>)
    ensures r.None? <==> '"' !in cd
    ensures r.Some? ==> exists i, j :: 0 <= i <= j < |cd| && cd[i] == '"' && cd[j] == '"'
                          && (forall k :: 0 <= k < i ==> cd[k] != '"')
                          && (forall k :: j < k < |cd| ==> cd[k] != '"')
                          && r.value == Slice(cd, i + 1, j)
  {
    match IndexOf(cd, '"')
    case None => None
    case Some(first) =>
      var last := RFind(cd, '"');
      assert first <= last;
      Some(Slice(cd, first + 1, last))
  }

  /** With its first `"` at `open` and its last at `close`, the header gives the text between. */
  lemma DispositionAt(cd: string, open: nat, close: nat)
    requires open <= close < |cd| && cd[open] == '"' && cd[close] == '"'
    requires forall j :: 0 <= j < open ==> cd[j] != '"'
    requires forall j :: close < j < |cd| ==> cd[j] != '"'
    ensures DispositionFilename(cd) == Some(Slice(cd, open + 1, close))
  {
    IndexOfAt(cd, '"', open);
    RFindAt(cd, '"', close);
  }

  /** A quoted name is returned as it stands, whatever it contains, when the text around it
      holds no `"`; `attachment; filename="report.pdf"` gives `report.pdf`. */
  lemma DispositionQuotedName(before: string, name: string, after: string)
    requires '"' !in before && '"' !in after
    ensures DispositionFilename(before + "\"" + name + "\"" + after) == Some(name)
  {
    var cd := before + "\"" + name + "\"" + after;
    var open, close := |before|, |before| + 1 + |name|;
    assert forall j :: 0 <= j < open ==> cd[j] == before[j];
    assert forall j :: close < j < |cd| ==> cd[j] == after[j - close - 1];
    assert cd[open + 1..close] == name;
    assert Slice(cd, open + 1, close) == name;
    DispositionAt(cd, open, close);
  }

  /** A header with a single `"` gives the empty file name. */
  lemma DispositionSingleQuote(before: string, after: string)
    requires '"' !in before && '"' !in after
    ensures DispositionFilename(before + "\"" + after) == Some("")
  {
    var cd := before + "\"" + after;
    var quote := |before|;
    assert forall j :: 0 <= j < quote ==> cd[j] == before[j];
    assert forall j :: quote < j < |cd| ==> cd[j] == after[j - quote - 1];
    DispositionAt(cd, quote, quote);
  }

  /** The file name taken from the URL: the text after its last `/`, without percent-decoding.
      The code quotes the URL in `'` before slicing, so a URL without `/` keeps that leading
      quote. */
  function UrlFilename(url: string): string
  {
    var quoted := "'" + url + "'";
    QuotedUrlLastQuote(url, quoted);
    Slice(quoted, RFind(quoted, '/') + 1, RFind(quoted, '\''))
  }

  /** The last `'` of the quoted URL is its closing quote. */
  lemma QuotedUrlLastQuote(url: string, quoted: string)
    requires quoted == "'" + url + "'"
    ensures RFind(quoted, '\'') == |quoted| - 1
  {
    RFindAt(quoted, '\'', |quoted| - 1);
  }

  /** `quoted` is `url` between two `'`, described index by index. */
  ghost predicate QuotedAs(quoted: string, url: string)
  {
    && |quoted| == |url| + 2 && quoted[0] == '\'' && quoted[|quoted| - 1] == '\''
    && forall j :: 0 <= j < |url| ==> quoted[j + 1] == url[j]
  }

  /** The last `/` of the quoted URL is one past the URL's own last `/`, so the slice after it
      is the rest of the URL. */
  lemma QuotedUrlSlash(url: string, quoted: string)
    requires QuotedAs(quoted, url) && RFind(url, '/') >= 0
    ensures RFind(quoted, '/') == RFind(url, '/') + 1
    ensures quoted[RFind(url, '/') + 2..|quoted| - 1] == url[RFind(url, '/') + 1..]
  {
    var slash := RFind(url, '/');
    forall j | slash + 1 < j < |quoted|
      ensures quoted[j] != '/'
    {
      if j < |quoted| - 1 {
        assert quoted[j] == url[j - 1];
      }
    }
    RFindAt(quoted, '/', slash + 1);
  }

  /** A URL without `/` gives a quoted URL without `/`. */
  lemma QuotedUrlNoSlash(url: string, quoted: string)
    requires QuotedAs(quoted, url) && RFind(url, '/') < 0
    ensures RFind(quoted, '/') == -1
  {
    forall j | 0 <= j < |quoted|
      ensures quoted[j] != '/'
    {
      if 0 < j < |quoted| - 1 {
        assert quoted[j] == url[j - 1];
      }
    }
  }

  /** The name from the URL is the text after the URL's own last `/`, or the URL behind the
      opening quote when it has no `/`. */
  lemma UrlFilenameByRFind(url: string)
    ensures RFind(url, '/') >= 0 ==> UrlFilename(url) == url[RFind(url, '/') + 1..]
    ensures RFind(url, '/') < 0 ==> UrlFilename(url) == "'" + url
  {
    var quoted := "'" + url + "'";
    QuotedUrlLastQuote(url, quoted);
    assert QuotedAs(quoted, url);
    if RFind(url, '/') >= 0 {
      QuotedUrlSlash(url, quoted);
    } else {
      QuotedUrlNoSlash(url, quoted);
      assert quoted[..|quoted| - 1] == "'" + url;
    }
  }

  /** The text after the last `/` of a string is a suffix right behind a `/` and holds none. */
  lemma AfterLastSlash(url: string, r: string)
    requires RFind(url, '/') >= 0 && r == url[RFind(url, '/') + 1..]
    ensures |r| < |url| && url[|url| - |r| - 1] == '/' && url[|url| - |r|..] == r && '/' !in r
  {
    var slash := RFind(url, '/');
    assert |url| - |r| == slash + 1;
    assert forall j :: 0 <= j < |r| ==> r[j] == url[slash + 1 + j];
  }

  /** Without the header the name is the text after the URL's last `/`, with no percent-decoding;
      a URL without `/` keeps the leading `'` the code adds. */
  lemma UrlFilenameShape(url: string)
    ensures var r := UrlFilename(url);
      && ('/' in url ==> |r| < |url| && url[|url| - |r| - 1] == '/' && url[|url| - |r|..] == r
                         && '/' !in r)
      && ('/' !in url ==> r == "'" + url)
  {
    UrlFilenameByRFind(url);
    if RFind(url, '/') >= 0 {
      AfterLastSlash(url, UrlFilename(url));
    }
  }

  /** `.../files/My%20File.pdf` gives `My%20File.pdf`: the last segment of a URL, as written. */
  lemma UrlFilenameLastSegment(base: string, name: string)
    requires '/' !in name
    ensures UrlFilename(base + "/" + name) == name
  {
    var url := base + "/" + name;
    var quoted := "'" + url + "'";
    var slash := |base| + 1;
    assert quoted[slash] == '/';
    assert forall p :: slash < p < |quoted| - 1 ==> quoted[p] == name[p - slash - 1];
    assert quoted[|quoted| - 1] == '\'';
    assert RFind(quoted, '/') == slash;
    assert RFind(quoted, '\'') == |quoted| - 1;
    assert quoted[slash + 1..|quoted| - 1] == name;
  }

  /** The names that `open(save_dir + '/' + name, 'wb')` resolves to a directory. */
  predicate IsDirectoryName(name: string)
  {
    name == "" || name == "." || name == ".."
  }

  /** The name the body of `url` is saved under: from `Content-Disposition` when the header is
      present, otherwise from the URL. */
  function Filename(url: string, response: Response): (r: Result<string, DownloadError>)
    ensures "content-disposition" !in response.headers ==> r == Ok(UrlFilename(url))
    ensures "content-disposition" in response.headers ==>
              (r.Err? <==> '"' !in response.headers["content-disposition"])
    ensures "content-disposition" in response.headers && r.Ok? ==>
              DispositionFilename(response.headers["content-disposition"]) == Some(r.value)
  {
    if "content-disposition" in response.headers then
      match DispositionFilename(response.headers["content-disposition"])
      case None => Err(NoQuote)
      case Some(name) => Ok(name)
    else
      Ok(UrlFilename(url))
  }

  /** The save directory: the files in it by name. */
  class Folder {
    var files: map<string, seq<byte>>

    constructor (files: map<string, seq<byte>>)
      ensures this.files == files
    {
      this.files := files;
    }

    /** `open(dir + '/' + name, 'wb').write(data)`: replaces or creates the file, or fails when
        the name designates a directory (the save directory or its parent). */
    method Write(name: string, data: seq<byte>) returns (ok: bool)
      modifies this
      ensures ok <==> !IsDirectoryName(name)
      ensures files == if ok then old(files)[name := data] else old(files)
    {
      ok := !IsDirectoryName(name);
      if ok {
        files := files[name := data];
      }
    }
  }

  /** What one pass of the download loop comes to: the body written under a name, nothing
      written (an empty body), or an exception. */
  datatype Pass = Wrote(name: string, data: seq<byte>) | Skipped | Raised(error: DownloadError)

  /** The pass over `url`: the request, the empty-body test, the choice of name and the write. */
  function PassOf(url: string, fetch: string -> Option<Response>): (r: Pass)
    ensures r.Wrote? ==> fetch(url).Some? && r.data == fetch(url).value.body && |r.data| > 0
                         && !IsDirectoryName(r.name)
    ensures r == Skipped <==> fetch(url).Some? && |fetch(url).value.body| == 0
    ensures fetch(url).None? ==> r == Raised(RequestFailed)
    ensures fetch(url).Some? && |fetch(url).value.body| > 0 ==>
              var f := Filename(url, fetch(url).value);
              && (f.Err? ==> r == Raised(f.error))
              && (f.Ok? ==> r == if IsDirectoryName(f.value) then Raised(IsADirectory)
                                 else Wrote(f.value, fetch(url).value.body))
  {
    match fetch(url)
    case None => Raised(RequestFailed)
    case Some(response) =>
      if |response.body| == 0 then Skipped
      else
        match Filename(url, response)
        case Err(e) => Raised(e)
        case Ok(name) =>
          if IsDirectoryName(name) then Raised(IsADirectory) else Wrote(name, response.body)
  }

  /** What one pass of the download loop does before its last line: the files afterwards, and the
      exception raised on the way, if any. */
  function SaveEffect(url: string, fetch: string -> Option<Response>, files: map<string, seq<byte>>)
    : (map<string, seq<byte>>, Option<DownloadError>)
  {
    match PassOf(url, fetch)
    case Wrote(name, data) => (files[name := data], None)
    case Skipped => (files, None)
    case Raised(e) => (files, Some(e))
  }

  /** An empty body writes nothing, whatever the headers say. */
  lemma EmptyBodyWritesNothing(url: string, fetch: string -> Option<Response>,
                               files: map<string, seq<byte>>)
    requires fetch(url).Some? && |fetch(url).value.body| == 0
    ensures SaveEffect(url, fetch, files) == (files, None)
  {
  }

  /** A non-empty body without `Content-Disposition` is stored under the URL's last segment. */
  lemma SavedUnderLastSegment(base: string, name: string, fetch: string -> Option<Response>,
                              files: map<string, seq<byte>>)
    requires '/' !in name && name != "" && name != "." && name != ".."
    requires fetch(base + "/" + name).Some?
    requires var response := fetch(base + "/" + name).value;
      |response.body| > 0 && "content-disposition" !in response.headers
    ensures SaveEffect(base + "/" + name, fetch, files)
              == (files[name := fetch(base + "/" + name).value.body], None)
  {
    UrlFilenameLastSegment(base, name);
  }

  /** A non-empty body with a `Content-Disposition` that holds a `"` is stored under the name
      between its first and last `"`, unless that name designates a directory. */
  lemma SavedUnderDispositionName(url: string, fetch: string -> Option<Response>,
                                  files: map<string, seq<byte>>)
    requires fetch(url).Some?
    requires var response := fetch(url).value;
      && |response.body| > 0 && "content-disposition" in response.headers
      && '"' in response.headers["content-disposition"]
      && !IsDirectoryName(DispositionFilename(response.headers["content-disposition"]).value)
    ensures var response := fetch(url).value;
            SaveEffect(url, fetch, files)
              == (files[DispositionFilename(response.headers["content-disposition"]).value
                          := response.body], None)
  {
  }

  /** A non-empty body with a `Content-Disposition` that holds no `"` makes `index` raise, and
      nothing is written. */
  lemma NoQuoteRaises(url: string, fetch: string -> Option<Response>,
                      files: map<string, seq<byte>>)
    requires fetch(url).Some?
    requires var response := fetch(url).value;
      && |response.body| > 0 && "content-disposition" in response.headers
      && '"' !in response.headers["content-disposition"]
    ensures SaveEffect(url, fetch, files) == (files, Some(NoQuote))
  {
  }

  /** The first pass of the loop over `dictionary[key]`, up to the line that increments `cont`. */
  method SaveEntry(url: string, folder: Folder, fetch: string -> Option<Response>)
    returns (error: Option<DownloadError>)
    modifies folder
    ensures (folder.files, error) == SaveEffect(url, fetch, old(folder.files))
  {
    var response := fetch(url);
    if response.None? {
      return Some(RequestFailed);
    }
    var body := response.value.body;
    error := None;
    if |body| > 0 {
      var filename: string;
      var headers := response.value.headers;
      if "content-disposition" in headers {
        var contentDisposition := headers["content-disposition"];
        var first := IndexOf(contentDisposition, '"');
        if first.None? {
          assert PassOf(url, fetch) == Raised(NoQuote);
          return Some(NoQuote);
        }
        var last := RFind(contentDisposition, '"');
        filename := Slice(contentDisposition, first.value + 1, last);
      } else {
        var quoted := "'" + url + "'";
        var first := RFind(quoted, '/');
        var last := RFind(quoted, '\'');
        filename := Slice(quoted, first + 1, last);
      }
      assert Filename(url, response.value) == Ok(filename);
      var ok := folder.Write(filename, body);
      if !ok {
        error := Some(IsADirectory);
      }
    }
  }

  /** `get_article_download_dspace`: an empty dictionary returns `'ok'` and changes no file; for
      any other, the first entry is fetched and possibly saved, and then the loop raises, at the
      latest when it increments `cont`, a name this function never assigns before reading it. */
  method GetArticleDownload(dictionary: seq<Entry>, folder: Folder,
                            fetch: string -> Option<Response>)
    returns (outcome: Result<string, DownloadError>)
    modifies folder
    ensures dictionary == [] ==> outcome == Ok("ok") && folder.files == old(folder.files)
    ensures dictionary != [] ==>
              var (files, error) := SaveEffect(dictionary[0].url, fetch, old(folder.files));
              folder.files == files
              && outcome == Err(if error.Some? then error.value else UnboundCont)
  {
    for i := 0 to |dictionary|
      invariant i == 0 && folder.files == old(folder.files)
    {
      var error := SaveEntry(dictionary[i].url, folder, fetch);
      if error.Some? {
        return Err(error.value);
      }
      // `cont = cont + 1` reads the local `cont`, which has no value yet.
      return Err(UnboundCont);
    }
    outcome := Ok("ok");
  }

  /** The name entry `url` is written under when its download succeeds with a non-empty body. */
  function WrittenName(url: string, fetch: string -> Option<Response>): Option<string>
  {
    if PassOf(url, fetch).Wrote? then Some(PassOf(url, fetch).name) else None
  }

  /** The download loop as evidently intended, without the stray `cont = cont + 1`: the entries
      are saved in order until one raises. */
  function SaveAll(dictionary: seq<Entry>, fetch: string -> Option<Response>,
                   files: map<string, seq<byte>>): (map<string, seq<byte>>, Option<DownloadError>)
    decreases |dictionary|
  {
    if dictionary == [] then (files, None)
    else
      var (before, error) := SaveAll(dictionary[..|dictionary| - 1], fetch, files);
      if error.Some? then (before, error)
      else SaveEffect(dictionary[|dictionary| - 1].url, fetch, before)
  }

  /** A single pass writes exactly the file named by `WrittenName`, or nothing. */
  lemma SaveEffectWrites(url: string, fetch: string -> Option<Response>,
                         files: map<string, seq<byte>>)
    ensures WrittenName(url, fetch).Some? ==>
              SaveEffect(url, fetch, files).0
              == files[WrittenName(url, fetch).value := fetch(url).value.body]
    ensures WrittenName(url, fetch).None? ==> SaveEffect(url, fetch, files).0 == files
  {
  }

  /** One more entry after a prefix that raised nothing is one more pass. */
  lemma SaveAllStep(dictionary: seq<Entry>, fetch: string -> Option<Response>,
                    files: map<string, seq<byte>>, i: nat)
    requires i < |dictionary| && SaveAll(dictionary[..i], fetch, files).1 == None
    ensures SaveAll(dictionary[..i + 1], fetch, files)
            == SaveEffect(dictionary[i].url, fetch, SaveAll(dictionary[..i], fetch, files).0)
  {
    assert dictionary[..i + 1][..i] == dictionary[..i];
  }

  /** When no entry raises, every entry that wrote a file and was not overwritten by a later
      entry under the same name has its body stored under that name. */
  lemma {:induction false} SaveAllStoresEach(dictionary: seq<Entry>,
                                             fetch: string -> Option<Response>,
                                             files: map<string, seq<byte>>, k: nat)
    requires SaveAll(dictionary, fetch, files).1 == None
    requires k < |dictionary| && WrittenName(dictionary[k].url, fetch).Some?
    requires forall l :: k < l < |dictionary| ==>
               WrittenName(dictionary[l].url, fetch) != WrittenName(dictionary[k].url, fetch)
    ensures var name := WrittenName(dictionary[k].url, fetch).value;
            name in SaveAll(dictionary, fetch, files).0
            && SaveAll(dictionary, fetch, files).0[name] == fetch(dictionary[k].url).value.body
    decreases |dictionary|
  {
    var n := |dictionary| - 1;
    var init := dictionary[..n];
    var name := WrittenName(dictionary[k].url, fetch).value;
    var body := fetch(dictionary[k].url).value.body;
    var prior := SaveAll(init, fetch, files).0;
    SaveAllLast(dictionary, fetch, files);
    var after := SaveAll(dictionary, fetch, files).0;
    assert after == SaveEffect(dictionary[n].url, fetch, prior).0;
    SaveEffectWrites(dictionary[n].url, fetch, prior);
    var written := WrittenName(dictionary[n].url, fetch);
    if k == n {
      assert after == prior[name := body];
    } else {
      assert init[k] == dictionary[k];
      assert forall l :: k < l < n ==> init[l] == dictionary[l];
      SaveAllStoresEach(init, fetch, files, k);
      assert written != Some(name);
      if written.Some? {
        assert after == prior[written.value := fetch(dictionary[n].url).value.body];
      } else {
        assert after == prior;
      }
    }
  }

  /** A loop that raised nothing ended with a pass over its last entry after a prefix that
      raised nothing. */
  lemma SaveAllLast(dictionary: seq<Entry>, fetch: string -> Option<Response>,
                    files: map<string, seq<byte>>)
    requires |dictionary| > 0 && SaveAll(dictionary, fetch, files).1 == None
    ensures var init := dictionary[..|dictionary| - 1];
            SaveAll(init, fetch, files).1 == None
            && SaveAll(dictionary, fetch, files).0
               == SaveEffect(dictionary[|dictionary| - 1].url, fetch, SaveAll(init, fetch, files).0).0
  {
  }

  /** On the first entry the intended loop does what the written one does before it raises. */
  lemma FirstPassAgrees(entry: Entry, fetch: string -> Option<Response>,
                        files: map<string, seq<byte>>)
    ensures SaveAll([entry], fetch, files) == SaveEffect(entry.url, fetch, files)
  {
    assert [entry][..0] == [];
  }

  /** `get_article_download_dspace` as evidently intended: every entry is fetched and saved in
      order, and `'ok'` is returned unless one of them raises. */
  method GetArticleDownloadIntended(dictionary: seq<Entry>, folder: Folder,
                                    fetch: string -> Option<Response>)
    returns (outcome: Result<string, DownloadError>)
    modifies folder
    ensures var (files, error) := SaveAll(dictionary, fetch, old(folder.files));
            folder.files == files
            && outcome == if error.Some? then Err(error.value) else Ok("ok")
  {
    for i := 0 to |dictionary|
      invariant SaveAll(dictionary[..i], fetch, old(folder.files)) == (folder.files, None)
    {
      SaveAllStep(dictionary, fetch, old(folder.files), i);
      var error := SaveEntry(dictionary[i].url, folder, fetch);
      if error.Some? {
        SaveAllStopsAtError(dictionary, fetch, old(folder.files), i + 1);
        return Err(error.value);
      }
    }
    assert dictionary[..|dictionary|] == dictionary;
    outcome := Ok("ok");
  }

  /** Once a prefix raises, the whole loop ends with that prefix's files and exception. */
  lemma {:induction false} SaveAllStopsAtError(dictionary: seq<Entry>,
                                               fetch: string -> Option<Response>,
                                               files: map<string, seq<byte>>, i: nat)
    requires i <= |dictionary| && SaveAll(dictionary[..i], fetch, files).1.Some?
    ensures SaveAll(dictionary, fetch, files) == SaveAll(dictionary[..i], fetch, files)
    decreases |dictionary| - i
  {
    if i < |dictionary| {
      assert dictionary[..i + 1][..i] == dictionary[..i];
      SaveAllStopsAtError(dictionary, fetch, files, i + 1);
    } else {
      assert dictionary[..i] == dictionary;
    }
  }
}
