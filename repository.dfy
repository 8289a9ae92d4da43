/**
 * The document resolver of `MopsRepository` (`downloadFinancialReport` and
 * `downloadAnnualReport`): from a company id, a Gregorian year and, for a
 * quarterly report, a season, it queries the filings listing page, picks the
 * first `readfile2(...)` anchor whose file name fits the report, posts the
 * anchor's fields back, and follows one intermediate HTML page when the answer
 * is not already a PDF.
 *
 * The three HTTP calls are the fields of a `Server` value, so the resolver is a
 * total function; it also returns the requests it issued, in order.
 * HTML parsing is not modelled: a page is its body text and the `href` of every
 * anchor in document order.
 */
module MopsRepository {
  import opened Wrappers
  import opened Text

  type byte = x: int | 0 <= x < 256

  /** `DownloadResult`: the document bytes, an expected absence, or a failure. */
  datatype DownloadResult = Success(body: seq<byte>) | NotFound(message: string) | Error(message: string)

  /**
   * What one call to the server produced: a successful response with a body, an
   * unsuccessful one (status outside 2xx, or no body) with its HTTP status
   * message, or an exception with its message, which may be null.
   */
  datatype Response<T> = Ok(value: T) | Failed(statusMessage: string) | Threw(exceptionMessage: Option<string>)

  /** A parsed HTML page: the text of its body and the `href` of each anchor, in document order. */
  datatype Page = Page(text: string, hrefs: seq<string>)

  /** The answer to the POST: its bytes, and the anchors those bytes contain when read as HTML. */
  datatype Payload = Payload(bytes: seq<byte>, hrefs: seq<string>)

  /** `MopsApiService`: the listing page (GET with a query), the form POST, and the final GET of a full URL. */
  datatype Server = Server(
    listing: map<string, string> -> Response<Page>,
    post: map<string, string> -> Response<Payload>,
    download: string -> Response<seq<byte>>)

  datatype Request = GetListing(query: map<string, string>) | PostForm(fields: map<string, string>) | GetPdf(url: string)

  /** The outcome of one resolution together with the requests it sent, in order. */
  datatype Resolution = Resolution(result: DownloadResult, requests: seq<Request>)

  /** The three arguments of a `readfile2("kind","co_id","filename")` call. */
  datatype Anchor = Anchor(kind: string, coId: string, filename: string)

  /** Which public operation runs: a quarterly financial report for one season, or the annual report. */
  datatype Report = Financial(season: string) | Annual

  const BaseUrl := "https://doc.twse.com.tw"
  const NoDataMarker := "查無所需資料"
  const YearFormatError := "年份格式錯誤"
  const ListingFailedPrefix := "查詢頁面失敗: "
  const PostFailedPrefix := "POST請求失敗: "
  const FinalFailedPrefix := "最終PDF下載失敗: "
  const ExceptionPrefix := "網路連線或解析時發生錯誤: "
  const NoPdfLinkMessage := "在中介頁面中未找到PDF連結"
  const FinancialNoTargetMessage := "在頁面中未找到可下載的中文財報PDF"
  const AnnualNoTargetMessage := "在頁面中未找到可下載的中文年報PDF"
  const JavascriptScheme := "javascript:"
  /** The ASCII bytes `%PDF`. */
  const PdfMagic: seq<byte> := [0x25, 0x50, 0x44, 0x46]

  function NoTargetMessage(report: Report): string {
    if report.Financial? then FinancialNoTargetMessage else AnnualNoTargetMessage
  }

  /** The listing query; the year is the local civil year. */
  function ListingQuery(coId: string, rocYear: int, report: Report): map<string, string> {
    match report
    case Financial(season) =>
      map["step" := "1", "colorchg" := "1", "co_id" := coId, "year" := IntToString(rocYear), "seamon" := season, "mtype" := "A"]
    case Annual =>
      map["step" := "1", "colorchg" := "1", "co_id" := coId, "year" := IntToString(rocYear), "mtype" := "F"]
  }

  /** The form fields of the POST, all taken from the chosen anchor. */
  function PostFields(a: Anchor): map<string, string> {
    map["colorchg" := "1", "step" := "9", "kind" := a.kind, "co_id" := a.coId, "filename" := a.filename]
  }

  // ---- the readfile2 pattern ----

  const CallOpen := "readfile2(\""
  const ArgSeparator := "\",\""
  const CallClose := "\")"

  predicate QuoteFree(s: string) { forall i :: 0 <= i < |s| ==> s[i] != '"' }

  /** An anchor the pattern can capture: no group holds a quote. */
  predicate WellFormed(a: Anchor) { QuoteFree(a.kind) && QuoteFree(a.coId) && QuoteFree(a.filename) }

  /** The text of a `readfile2` call with the anchor's three arguments, followed by `w`. */
  function RenderThen(a: Anchor, w: string): string {
    CallOpen + (a.kind + (ArgSeparator + (a.coId + (ArgSeparator + (a.filename + (CallClose + w))))))
  }

  /** The text of a `readfile2` call with the anchor's three arguments. */
  function Render(a: Anchor): string { RenderThen(a, []) }

  lemma RenderThenAppend(a: Anchor, w: string)
    ensures RenderThen(a, w) == Render(a) + w
  {
  }

  /** A literal matched at the start of `u`, and what follows it. */
  function Strip(lit: string, u: string): Option<string> {
    if lit <= u then Some(u[|lit|..]) else None
  }

  lemma StripSpec(lit: string, u: string, w: string)
    ensures Strip(lit, u) == Some(w) <==> u == lit + w
  {
    if u == lit + w { AppendDrop(lit, w); }
    if Strip(lit, u) == Some(w) { PrefixSplit(lit, u); }
  }

  /** The longest quote-free prefix of `u`: what the greedy `[^"]*` consumes. */
  function QuoteFreePrefix(u: string): (t: string)
    ensures t <= u && QuoteFree(t) && (|t| < |u| ==> u[|t|] == '"')
  {
    if u == [] || u[0] == '"' then [] else [u[0]] + QuoteFreePrefix(u[1..])
  }

  lemma {:induction false} QuoteFreePrefixOf(t: string, rest: string)
    requires QuoteFree(t) && rest != [] && rest[0] == '"'
    ensures QuoteFreePrefix(t + rest) == t
  {
    if t != [] {
      assert (t + rest)[1..] == t[1..] + rest;
      QuoteFreePrefixOf(t[1..], rest);
      assert t == [t[0]] + t[1..];
    }
  }

  /**
   * A group `([^"]*)` followed by a literal that starts with a quote. A group
   * that stopped short of the longest quote-free run would leave a non-quote
   * where the literal's quote must be, so the greedy run is the only candidate.
   */
  function GroupThen(lit: string, u: string): Option<(string, string)> {
    var g := QuoteFreePrefix(u);
    match Strip(lit, u[|g|..])
    case None => None
    case Some(w) => Some((g, w))
  }

  lemma GroupThenSpec(lit: string, u: string, g: string, w: string)
    requires lit != [] && lit[0] == '"'
    ensures GroupThen(lit, u) == Some((g, w)) <==> QuoteFree(g) && u == g + (lit + w)
  {
    if QuoteFree(g) && u == g + (lit + w) {
      QuoteFreePrefixOf(g, lit + w);
      AppendDrop(g, lit + w);
      StripSpec(lit, lit + w, w);
    }
    if GroupThen(lit, u) == Some((g, w)) {
      PrefixSplit(g, u);
      StripSpec(lit, u[|g|..], w);
    }
  }

  /** `readfile2\("([^"]*)","([^"]*)","([^"]*)"\)` matched at the start of `u`. */
  function MatchPrefix(u: string): Option<Anchor> {
    match Strip(CallOpen, u)
    case None => None
    case Some(u1) =>
      match GroupThen(ArgSeparator, u1)
      case None => None
      case Some((kind, u2)) =>
        match GroupThen(ArgSeparator, u2)
        case None => None
        case Some((coId, u3)) =>
          match GroupThen(CallClose, u3)
          case None => None
          case Some((filename, _)) => Some(Anchor(kind, coId, filename))
  }

  /** The pattern matches at the start of `u`, capturing `x`, exactly when `u` begins with the call text of a well-formed `x`. */
  lemma MatchPrefixSpec(u: string, x: Anchor)
    ensures MatchPrefix(u) == Some(x) <==> WellFormed(x) && Render(x) <= u
  {
    if MatchPrefix(u) == Some(x) {
      var u1 := Strip(CallOpen, u).value;
      StripSpec(CallOpen, u, u1);
      var u2 := GroupThen(ArgSeparator, u1).value.1;
      GroupThenSpec(ArgSeparator, u1, x.kind, u2);
      var u3 := GroupThen(ArgSeparator, u2).value.1;
      GroupThenSpec(ArgSeparator, u2, x.coId, u3);
      var w := GroupThen(CallClose, u3).value.1;
      GroupThenSpec(CallClose, u3, x.filename, w);
      assert u == RenderThen(x, w);
      RenderThenAppend(x, w);
    }
    if WellFormed(x) && Render(x) <= u {
      var w := u[|Render(x)|..];
      PrefixSplit(Render(x), u);
      RenderThenAppend(x, w);
      var u3 := x.filename + (CallClose + w);
      var u2 := x.coId + (ArgSeparator + u3);
      var u1 := x.kind + (ArgSeparator + u2);
      StripSpec(CallOpen, u, u1);
      GroupThenSpec(ArgSeparator, u1, x.kind, u2);
      GroupThenSpec(ArgSeparator, u2, x.coId, u3);
      GroupThenSpec(CallClose, u3, x.filename, w);
    }
  }

  /** The pattern tried at every offset of `c`, the end included. */
  function Attempts(c: string): (ms: seq<Option<Anchor>>)
    ensures |ms| == |c| + 1
    ensures forall q :: 0 <= q <= |c| ==> ms[q] == MatchPrefix(c[q..])
  {
    seq(|c| + 1, q requires 0 <= q <= |c| => MatchPrefix(c[q..]))
  }

  /** The first present entry of `ms`. */
  function FirstSome<T>(ms: seq<Option<T>>): (r: Option<T>)
    ensures r.None? <==> forall q :: 0 <= q < |ms| ==> ms[q].None?
    ensures r.Some? ==> exists q :: 0 <= q < |ms| && ms[q] == r && forall q' :: 0 <= q' < q ==> ms[q'].None?
  {
    if ms == [] then None
    else if ms[0].Some? then ms[0]
    else
      var r := FirstSome(ms[1..]);
      assert forall q :: 1 <= q < |ms| ==> ms[q] == ms[1..][q - 1];
      assert r.Some? ==> exists q :: 0 <= q < |ms| && ms[q] == r && forall q' :: 0 <= q' < q ==> ms[q'].None? by {
        if r.Some? {
          var q :| 0 <= q < |ms[1..]| && ms[1..][q] == r && forall q' :: 0 <= q' < q ==> ms[1..][q'].None?;
          assert ms[q + 1] == r;
        }
      }
      r
  }

  /** The `href` with the `javascript:` scheme removed: the text the pattern is searched in. */
  function CleanHref(href: string): string { RemovePrefix(href, JavascriptScheme) }

  /** One anchor's `href`: the captures of the first match in the cleaned text. */
  function ParseHref(href: string): Option<Anchor> { FirstSome(Attempts(CleanHref(href))) }

  /** The call text of the well-formed anchor `x` begins at offset `q` of `c`. */
  predicate CallAt(c: string, q: int, x: Anchor) {
    0 <= q <= |c| && WellFormed(x) && Render(x) <= c[q..]
  }

  /** An entry that is present, with none present before it, is the one `FirstSome` returns. */
  lemma FirstSomeAt<T>(ms: seq<Option<T>>, q: int)
    requires 0 <= q < |ms| && ms[q].Some? && forall q' :: 0 <= q' < q ==> ms[q'].None?
    ensures FirstSome(ms) == ms[q]
  {
    var q0 :| 0 <= q0 < |ms| && ms[q0] == FirstSome(ms) && forall q' :: 0 <= q' < q0 ==> ms[q'].None?;
  }

  lemma AttemptSpec(c: string, q: nat, y: Anchor)
    requires q <= |c|
    ensures Attempts(c)[q] == Some(y) <==> CallAt(c, q, y)
  {
    MatchPrefixSpec(c[q..], y);
  }

  /**
   * `ParseHref` captures `x` exactly when the call text of `x` occurs in the
   * cleaned `href` and no call text of any anchor begins earlier.
   */
  lemma ParseHrefSpec(href: string, x: Anchor)
    ensures ParseHref(href) == Some(x) <==>
      exists q :: CallAt(CleanHref(href), q, x) && forall q', y :: 0 <= q' < q ==> !CallAt(CleanHref(href), q', y)
  {
    var c := CleanHref(href);
    var ms := Attempts(c);
    if ParseHref(href) == Some(x) {
      var q :| 0 <= q < |ms| && ms[q] == Some(x) && forall q' :: 0 <= q' < q ==> ms[q'].None?;
      AttemptSpec(c, q, x);
      forall q', y | 0 <= q' < q
        ensures !CallAt(c, q', y)
      {
        AttemptSpec(c, q', y);
      }
    }
    if exists q :: CallAt(c, q, x) && forall q', y :: 0 <= q' < q ==> !CallAt(c, q', y) {
      var q :| CallAt(c, q, x) && forall q', y :: 0 <= q' < q ==> !CallAt(c, q', y);
      AttemptSpec(c, q, x);
      forall q' | 0 <= q' < q
        ensures ms[q'].None?
      {
        if ms[q'].Some? {
          AttemptSpec(c, q', ms[q'].value);
        }
      }
      FirstSomeAt(ms, q);
    }
  }

  /** When the cleaned `href` begins with the call text of a well-formed anchor, that anchor is parsed. */
  lemma ParseAtStart(href: string, x: Anchor)
    requires WellFormed(x) && Render(x) <= CleanHref(href)
    ensures ParseHref(href) == Some(x)
  {
    assert CleanHref(href)[0..] == CleanHref(href);
    assert CallAt(CleanHref(href), 0, x);
    ParseHrefSpec(href, x);
  }

  /** The call text of a well-formed anchor, with or without the scheme, parses back to that anchor. */
  lemma ParseRender(x: Anchor)
    requires WellFormed(x)
    ensures ParseHref(Render(x)) == Some(x)
    ensures ParseHref(JavascriptScheme + Render(x)) == Some(x)
  {
    var t := Render(x);
    AppendDrop(JavascriptScheme, t);
    assert CleanHref(JavascriptScheme + t) == t;
    assert t[0] == 'r' && JavascriptScheme[0] == 'j';
    assert CleanHref(t) == t;
    ParseAtStart(t, x);
    ParseAtStart(JavascriptScheme + t, x);
  }

  /** jsoup `a[href*='readfile2']`: the value, lower-cased, contains `readfile2`. */
  predicate Selected(href: string) { Contains(LowerAscii(href), "readfile2") }

  /** jsoup `select("a[href*='readfile2']")`: the selected anchors' `href`s, in document order. */
  function SelectLinks(hrefs: seq<string>): (links: seq<string>)
    ensures forall h :: h in links <==> h in hrefs && Selected(h)
  {
    if hrefs == [] then []
    else if Selected(hrefs[0]) then [hrefs[0]] + SelectLinks(hrefs[1..])
    else SelectLinks(hrefs[1..])
  }

  lemma SelectedByName(href: string)
    requires Contains(href, "readfile2")
    ensures Selected(href)
  {
    LowerAsciiKeepsLowerSegment(href, "readfile2");
  }

  /** An `href` in which the pattern matches is always one the selector picks. */
  lemma ParsedIsSelected(href: string)
    ensures ParseHref(href).Some? ==> Selected(href)
  {
    if ParseHref(href).Some? {
      var x := ParseHref(href).value;
      var c := CleanHref(href);
      ParseHrefSpec(href, x);
      var q :| CallAt(c, q, x) && forall q', y :: 0 <= q' < q ==> !CallAt(c, q', y);
      assert "readfile2" <= Render(x);
      assert "readfile2" <= c[q..];
      ContainsAt(c, q, "readfile2");
      ContainsInSuffix(href, |href| - |c|, "readfile2");
      SelectedByName(href);
    }
  }

  /** The file name filter: `AI1` or `AI2` for a financial report, `F04` for an annual one. */
  predicate Accepts(report: Report, filename: string) {
    match report
    case Financial(_) => Contains(filename, "AI1") || Contains(filename, "AI2")
    case Annual => Contains(filename, "F04")
  }

  /** A link the loop acts on: the pattern matches and the captured file name is accepted. */
  predicate Qualifies(href: string, report: Report) {
    ParseHref(href).Some? && Accepts(report, ParseHref(href).value.filename)
  }

  /** Link `i` qualifies and no earlier one does. */
  predicate IsFirstQualifying(links: seq<string>, i: int, report: Report) {
    0 <= i < |links| && Qualifies(links[i], report) && forall j :: 0 <= j < i ==> !Qualifies(links[j], report)
  }

  /** The loop over the selected links: the first that qualifies decides, in document order. */
  function FirstTarget(links: seq<string>, report: Report): Option<Anchor> {
    if links == [] then None
    else if Qualifies(links[0], report) then ParseHref(links[0])
    else FirstTarget(links[1..], report)
  }

  /** The loop finds nothing exactly when no link qualifies, and otherwise returns the captures of the first that does. */
  lemma {:induction false} FirstTargetSpec(links: seq<string>, report: Report)
    ensures FirstTarget(links, report).None? <==> forall i :: 0 <= i < |links| ==> !Qualifies(links[i], report)
    ensures FirstTarget(links, report).Some? ==>
      exists i :: IsFirstQualifying(links, i, report) && FirstTarget(links, report) == ParseHref(links[i])
  {
    if links != [] {
      var tail := links[1..];
      var q := h => Qualifies(h, report);
      if q(links[0]) {
        assert IsFirstQualifying(links, 0, report);
      } else {
        FirstTargetSpec(tail, report);
        var r := FirstTarget(links, report);
        if r.Some? {
          var i :| IsFirstQualifying(tail, i, report) && r == ParseHref(tail[i]);
          ShiftFirst(links, q, i);
          assert IsFirstQualifying(links, i + 1, report);
        } else {
          ShiftNone(links, q);
        }
      }
    }
  }

  /** The first element satisfying `q` in the tail, after a head that does not, is the first in the whole sequence. */
  lemma ShiftFirst<T>(xs: seq<T>, q: T -> bool, i: int)
    requires xs != [] && !q(xs[0])
    requires 0 <= i < |xs| - 1 && q(xs[1..][i]) && forall j :: 0 <= j < i ==> !q(xs[1..][j])
    ensures xs[i + 1] == xs[1..][i] && forall j :: 0 <= j < i + 1 ==> !q(xs[j])
  {
    forall j | 0 < j < i + 1
      ensures !q(xs[j])
    {
      assert xs[j] == xs[1..][j - 1];
    }
  }

  /** No element of the tail satisfying `q`, after a head that does not, means none in the whole sequence does. */
  lemma ShiftNone<T>(xs: seq<T>, q: T -> bool)
    requires xs != [] && !q(xs[0])
    requires forall j :: 0 <= j < |xs| - 1 ==> !q(xs[1..][j])
    ensures forall j :: 0 <= j < |xs| ==> !q(xs[j])
  {
    forall j | 0 < j < |xs|
      ensures !q(xs[j])
    {
      assert xs[j] == xs[1..][j - 1];
    }
  }

  /** Scanning only the selected links finds the same target as scanning every anchor: the selector drops nothing the pattern accepts. */
  lemma {:induction false} SelectorRedundant(hrefs: seq<string>, report: Report)
    ensures FirstTarget(SelectLinks(hrefs), report) == FirstTarget(hrefs, report)
  {
    if hrefs != [] {
      SelectorRedundant(hrefs[1..], report);
      if Selected(hrefs[0]) {
        var links := [hrefs[0]] + SelectLinks(hrefs[1..]);
        assert links[0] == hrefs[0] && links[1..] == SelectLinks(hrefs[1..]);
      } else {
        ParsedIsSelected(hrefs[0]);
      }
    }
  }

  lemma FirstQualifyingUnique(links: seq<string>, i: int, j: int, report: Report)
    requires IsFirstQualifying(links, i, report) && IsFirstQualifying(links, j, report)
    ensures i == j
  {
  }

  /** Whichever link qualifies first is the one the loop returns. */
  lemma FirstQualifyingIsTarget(links: seq<string>, i: int, report: Report)
    requires IsFirstQualifying(links, i, report)
    ensures FirstTarget(links, report) == ParseHref(links[i])
  {
    FirstTargetSpec(links, report);
    var j :| IsFirstQualifying(links, j, report) && FirstTarget(links, report) == ParseHref(links[j]);
    FirstQualifyingUnique(links, i, j, report);
  }

  /** Anchors after a qualifying one are never looked at. */
  lemma {:induction false} LaterAnchorsIgnored(links: seq<string>, more: seq<string>, report: Report)
    requires FirstTarget(links, report).Some?
    ensures FirstTarget(links + more, report) == FirstTarget(links, report)
  {
    assert (links + more)[0] == links[0];
    if !Qualifies(links[0], report) {
      assert (links + more)[1..] == links[1..] + more;
      LaterAnchorsIgnored(links[1..], more, report);
    }
  }

  /** An `href` jsoup's `a[href*='.pdf']` picks: the lower-cased value contains `.pdf`. */
  predicate PdfLink(href: string) { Contains(LowerAscii(href), ".pdf") }

  /** jsoup `selectFirst("a[href*='.pdf']")`: the first `href` that is a PDF link. */
  function FirstPdfHref(hrefs: seq<string>): Option<string> {
    if hrefs == [] then None
    else if PdfLink(hrefs[0]) then Some(hrefs[0])
    else FirstPdfHref(hrefs[1..])
  }

  /** No link is found exactly when no `href` is a PDF link; otherwise the first PDF link is returned. */
  lemma {:induction false} FirstPdfHrefSpec(hrefs: seq<string>)
    ensures FirstPdfHref(hrefs).None? <==> forall i :: 0 <= i < |hrefs| ==> !PdfLink(hrefs[i])
    ensures FirstPdfHref(hrefs).Some? ==>
      exists i :: 0 <= i < |hrefs| && FirstPdfHref(hrefs).value == hrefs[i] && PdfLink(hrefs[i]) &&
                  forall j :: 0 <= j < i ==> !PdfLink(hrefs[j])
  {
    if hrefs != [] && !PdfLink(hrefs[0]) {
      FirstPdfHrefSpec(hrefs[1..]);
      assert forall i :: 1 <= i < |hrefs| ==> hrefs[i] == hrefs[1..][i - 1];
      if FirstPdfHref(hrefs).Some? {
        var i :| 0 <= i < |hrefs[1..]| && FirstPdfHref(hrefs).value == hrefs[1..][i] && PdfLink(hrefs[1..][i]) &&
                 forall j :: 0 <= j < i ==> !PdfLink(hrefs[1..][j]);
        assert forall j :: 0 <= j < i + 1 ==> !PdfLink(hrefs[j]);
      }
    }
  }

  /** The first four bytes are `%PDF` (a shorter body cannot be peeked). */
  predicate IsPdf(bytes: seq<byte>) { |bytes| >= 4 && bytes[..4] == PdfMagic }

  /** The error messages the resolver can produce: the year error, or one of the four prefixes. */
  predicate KnownError(message: string) {
    || message == YearFormatError
    || ListingFailedPrefix <= message
    || PostFailedPrefix <= message
    || FinalFailedPrefix <= message
    || ExceptionPrefix <= message
  }

  /** Everything after the POST was sent: the PDF check, the intermediate page, and the final GET. */
  function AfterPost(response: Response<Payload>, server: Server): (r: Resolution)
    ensures |r.requests| <= 1
    ensures r.requests != [] ==> r.requests[0].GetPdf? && BaseUrl <= r.requests[0].url
    ensures r.result.Error? ==> KnownError(r.result.message)
    ensures r.result.NotFound? ==> r.result.message == NoPdfLinkMessage
    ensures response.Threw? ==> r == Resolution(Error(ExceptionPrefix + MessageText(response.exceptionMessage)), [])
    ensures response.Failed? ==> r == Resolution(Error(PostFailedPrefix + response.statusMessage), [])
    ensures response.Ok? && |response.value.bytes| < 4 ==> r == Resolution(Error(ExceptionPrefix + MessageText(None)), [])
    ensures response.Ok? && IsPdf(response.value.bytes) ==> r == Resolution(Success(response.value.bytes), [])
    ensures response.Ok? && |response.value.bytes| >= 4 && !IsPdf(response.value.bytes) ==>
      match FirstPdfHref(response.value.hrefs)
      case None => r == Resolution(NotFound(NoPdfLinkMessage), [])
      case Some(href) =>
        && r.requests == [GetPdf(BaseUrl + href)]
        && (r.result.Success? <==> server.download(BaseUrl + href).Ok?)
        && (r.result.Success? ==> r.result.body == server.download(BaseUrl + href).value)
        && (server.download(BaseUrl + href).Failed? ==>
              r.result == Error(FinalFailedPrefix + server.download(BaseUrl + href).statusMessage))
        && (server.download(BaseUrl + href).Threw? ==>
              r.result == Error(ExceptionPrefix + MessageText(server.download(BaseUrl + href).exceptionMessage)))
  {
    match response
    case Threw(m) => Resolution(Error(ExceptionPrefix + MessageText(m)), [])
    case Failed(m) => Resolution(Error(PostFailedPrefix + m), [])
    case Ok(payload) =>
      if |payload.bytes| < 4 then
        // okio's peek cannot read four bytes and throws an EOFException, whose message is null
        Resolution(Error(ExceptionPrefix + MessageText(None)), [])
      else if payload.bytes[..4] == PdfMagic then Resolution(Success(payload.bytes), [])
      else match FirstPdfHref(payload.hrefs)
        case None => Resolution(NotFound(NoPdfLinkMessage), [])
        case Some(href) =>
          var url := BaseUrl + href;
          match server.download(url)
          case Ok(body) => Resolution(Success(body), [GetPdf(url)])
          case Failed(m) => Resolution(Error(FinalFailedPrefix + m), [GetPdf(url)])
          case Threw(m) => Resolution(Error(ExceptionPrefix + MessageText(m)), [GetPdf(url)])
  }

  /** Everything after the listing query was sent. */
  function AfterListing(response: Response<Page>, report: Report, server: Server): (r: Resolution)
    ensures |r.requests| <= 2
    ensures r.requests != [] ==> r.requests[0].PostForm?
    ensures |r.requests| == 2 ==> r.requests[1].GetPdf? && BaseUrl <= r.requests[1].url
    ensures r.result.Success? ==> r.requests != []
    ensures r.result.Error? ==> KnownError(r.result.message)
    ensures r.result.NotFound? ==> r.result.message in {NoDataMarker, NoTargetMessage(report), NoPdfLinkMessage}
    ensures response.Threw? ==> r == Resolution(Error(ExceptionPrefix + MessageText(response.exceptionMessage)), [])
    ensures response.Failed? ==> r == Resolution(Error(ListingFailedPrefix + response.statusMessage), [])
  {
    match response
    case Threw(m) => Resolution(Error(ExceptionPrefix + MessageText(m)), [])
    case Failed(m) => Resolution(Error(ListingFailedPrefix + m), [])
    case Ok(page) =>
      if Contains(page.text, NoDataMarker) then Resolution(NotFound(NoDataMarker), [])
      else match FirstTarget(SelectLinks(page.hrefs), report)
        case None => Resolution(NotFound(NoTargetMessage(report)), [])
        case Some(anchor) =>
          var fields := PostFields(anchor);
          var rest := AfterPost(server.post(fields), server);
          Resolution(rest.result, [PostForm(fields)] + rest.requests)
  }

  /** The local civil year sent for a Gregorian year (Kotlin `Int` subtraction). */
  function RocYear(y: int): int { Wrap32(y - 1911) }

  /** The shared decision procedure of `downloadFinancialReport` and `downloadAnnualReport`. */
  function Resolve(coId: string, year: string, report: Report, server: Server): (r: Resolution)
    ensures 1 <= |r.requests| <= 3 <==> ParseInt(year).Some?
    ensures ParseInt(year).None? ==> r == Resolution(Error(YearFormatError), [])
    ensures ParseInt(year).Some? ==> r.requests[0] == GetListing(ListingQuery(coId, RocYear(ParseInt(year).value), report))
    ensures |r.requests| >= 2 ==> r.requests[1].PostForm?
    ensures |r.requests| == 3 ==> r.requests[2].GetPdf? && BaseUrl <= r.requests[2].url
    ensures r.result.Success? ==> |r.requests| >= 2
    ensures r.result.Error? ==> KnownError(r.result.message)
    ensures r.result.NotFound? ==> r.result.message in {NoDataMarker, NoTargetMessage(report), NoPdfLinkMessage}
    ensures ParseInt(year).Some? ==>
      var query := ListingQuery(coId, RocYear(ParseInt(year).value), report);
      && (server.listing(query).Failed? ==>
            r == Resolution(Error(ListingFailedPrefix + server.listing(query).statusMessage), [GetListing(query)]))
      && (server.listing(query).Threw? ==>
            r == Resolution(Error(ExceptionPrefix + MessageText(server.listing(query).exceptionMessage)), [GetListing(query)]))
  {
    match ParseInt(year)
    case None => Resolution(Error(YearFormatError), [])
    case Some(y) =>
      var query := ListingQuery(coId, RocYear(y), report);
      var rest := AfterListing(server.listing(query), report, server);
      Resolution(rest.result, [GetListing(query)] + rest.requests)
  }

  /** For a year whose local year fits in an `Int`, the query's `year` value reads back as that year minus 1911. */
  lemma QueryYear(coId: string, year: string, report: Report, y: int)
    requires ParseInt(year) == Some(y) && IsInt32(y - 1911)
    ensures ParseInt(ListingQuery(coId, RocYear(y), report)["year"]) == Some(y - 1911)
  {
    ParseIntToString(y - 1911);
  }

  /** The "no data" phrase decides the outcome whatever anchors the page carries. */
  lemma NoDataWins(coId: string, year: string, report: Report, server: Server, y: int, page: Page)
    requires ParseInt(year) == Some(y)
    requires server.listing(ListingQuery(coId, RocYear(y), report)) == Ok(page)
    requires Contains(page.text, NoDataMarker)
    ensures Resolve(coId, year, report, server) ==
      Resolution(NotFound(NoDataMarker), [GetListing(ListingQuery(coId, RocYear(y), report))])
  {
  }

  /** With no qualifying anchor, the result is the report's own not-found message and nothing is posted. */
  lemma NoTargetFound(coId: string, year: string, report: Report, server: Server, y: int, page: Page)
    requires ParseInt(year) == Some(y)
    requires server.listing(ListingQuery(coId, RocYear(y), report)) == Ok(page)
    requires !Contains(page.text, NoDataMarker)
    requires forall i :: 0 <= i < |page.hrefs| ==> !Qualifies(page.hrefs[i], report)
    ensures Resolve(coId, year, report, server) ==
      Resolution(NotFound(NoTargetMessage(report)), [GetListing(ListingQuery(coId, RocYear(y), report))])
  {
    FirstTargetSpec(page.hrefs, report);
    SelectorRedundant(page.hrefs, report);
    assert AfterListing(Ok(page), report, server) == Resolution(NotFound(NoTargetMessage(report)), []);
  }

  lemma PrependTwo<T>(x: T, y: T, s: seq<T>)
    ensures [x] + ([y] + s) == [x, y] + s
  {
  }

  /** Once the loop has a target, the POST of that target's fields and what follows it are the rest of the run. */
  lemma PostsTarget(page: Page, report: Report, server: Server, a: Anchor)
    requires !Contains(page.text, NoDataMarker)
    requires FirstTarget(SelectLinks(page.hrefs), report) == Some(a)
    ensures var after := AfterPost(server.post(PostFields(a)), server);
      AfterListing(Ok(page), report, server) == Resolution(after.result, [PostForm(PostFields(a))] + after.requests)
  {
  }

  /**
   * The first qualifying anchor decides: its own `kind`, `co_id` and file name
   * are posted, and the POST's outcome is the result, whether or not later
   * anchors would qualify.
   */
  lemma FirstQualifyingDecides(coId: string, year: string, report: Report, server: Server, y: int, page: Page, i: int)
    requires ParseInt(year) == Some(y)
    requires server.listing(ListingQuery(coId, RocYear(y), report)) == Ok(page)
    requires !Contains(page.text, NoDataMarker)
    requires IsFirstQualifying(page.hrefs, i, report)
    ensures var a := ParseHref(page.hrefs[i]).value;
      var after := AfterPost(server.post(PostFields(a)), server);
      Resolve(coId, year, report, server) ==
        Resolution(after.result, [GetListing(ListingQuery(coId, RocYear(y), report)), PostForm(PostFields(a))] + after.requests)
  {
    FirstQualifyingIsTarget(page.hrefs, i, report);
    SelectorRedundant(page.hrefs, report);
    var a := ParseHref(page.hrefs[i]).value;
    PostsTarget(page, report, server, a);
    var after := AfterPost(server.post(PostFields(a)), server);
    var query := ListingQuery(coId, RocYear(y), report);
    PrependTwo(GetListing(query), PostForm(PostFields(a)), after.requests);
  }

  /**
   * An error's prefix names the request that failed: the listing query, the
   * POST or the final GET, and the year error means nothing was sent.
   */
  lemma ErrorNamesStage(coId: string, year: string, report: Report, server: Server)
    ensures var r := Resolve(coId, year, report, server);
      r.result.Error? ==>
        && (r.result.message == YearFormatError <==> r.requests == [])
        && (ListingFailedPrefix <= r.result.message ==>
              |r.requests| == 1 && server.listing(r.requests[0].query).Failed?)
        && (PostFailedPrefix <= r.result.message ==>
              |r.requests| == 2 && server.post(r.requests[1].fields).Failed?)
        && (FinalFailedPrefix <= r.result.message ==>
              |r.requests| == 3 && server.download(r.requests[2].url).Failed?)
  {
    var r := Resolve(coId, year, report, server);
    if r.result.Error? && ParseInt(year).Some? {
      var query := ListingQuery(coId, RocYear(ParseInt(year).value), report);
      var m := r.result.message;
      match server.listing(query)
      case Failed(_) =>
        assert m[0] == '查';
      case Threw(_) =>
        assert m[0] == '網';
      case Ok(page) =>
        var anchor := FirstTarget(SelectLinks(page.hrefs), report).value;
        var fields := PostFields(anchor);
        var post := server.post(fields);
        assert r.requests[1] == PostForm(fields);
        match post
        case Failed(_) =>
          assert m[0] == 'P';
        case Threw(_) =>
          assert m[0] == '網';
        case Ok(payload) =>
          if |payload.bytes| < 4 {
            assert m[0] == '網';
          } else {
            var href := FirstPdfHref(payload.hrefs).value;
            assert r.requests[2] == GetPdf(BaseUrl + href);
            if server.download(BaseUrl + href).Failed? {
              assert m[0] == '最';
            } else {
              assert m[0] == '網';
            }
          }
    }
  }

  /** `downloadFinancialReport(coId, year, season)`. */
  function DownloadFinancialReport(coId: string, year: string, season: string, server: Server): (r: Resolution)
    ensures r.requests != [] ==>
      && r.requests[0].GetListing?
      && r.requests[0].query.Keys == {"step", "colorchg", "co_id", "year", "seamon", "mtype"}
      && r.requests[0].query["step"] == "1" && r.requests[0].query["colorchg"] == "1"
      && r.requests[0].query["co_id"] == coId
      && r.requests[0].query["mtype"] == "A" && r.requests[0].query["seamon"] == season
  {
    Resolve(coId, year, Financial(season), server)
  }

  /** `downloadAnnualReport(coId, year)`. */
  function DownloadAnnualReport(coId: string, year: string, server: Server): (r: Resolution)
    ensures r.requests != [] ==>
      && r.requests[0].GetListing?
      && r.requests[0].query.Keys == {"step", "colorchg", "co_id", "year", "mtype"}
      && r.requests[0].query["step"] == "1" && r.requests[0].query["colorchg"] == "1"
      && r.requests[0].query["co_id"] == coId
      && r.requests[0].query["mtype"] == "F"
  {
    Resolve(coId, year, Annual, server)
  }
}
