/**
 * The job that copies the exported Singapore internship tech jobs into the
 * README: it builds one table row per job, merges those rows into the README
 * held on GitHub, and writes the README back only when the merge changed it.
 */
module SyncReadme {
  import opened Wrappers
  import opened Text
  import opened ReadmeJobsTable
  import opened ReadmeIdempotence
  import opened ExportJobs

  const UtmParams: string := "utm_source=github" + "&utm_medium=readme" + "&utm_campaign=sg-intern-tech"
  const DefaultSiteUrl: string := "https://didtheyghost.me"
  const ButtonWidth: int := 220

  // ---------------------------------------------------------------------------
  // The site URL
  // ---------------------------------------------------------------------------

  /** The configured site URL (`??`: only an absent setting falls back), else the public site. */
  function SiteBaseUrl(configured: Option<string>): string {
    configured.GetOr(DefaultSiteUrl)
  }

  /** `replace(/\/$/, "")`: one slash at the very end of the URL is removed. */
  function StripTrailingSlash(url: string): (r: string)
    ensures EndsWith(url, "/") ==> url == r + "/"
    ensures !EndsWith(url, "/") ==> r == url
  {
    if |url| > 0 && url[|url| - 1] == '/' then
      assert url == url[..|url| - 1] + "/";
      url[..|url| - 1]
    else
      url
  }

  /** Only one slash goes: stripping undoes exactly one appended slash. */
  lemma StripTrailingSlashOnce(url: string)
    ensures StripTrailingSlash(url + "/") == url
    ensures !EndsWith(url, "/") ==> StripTrailingSlash(url) == url
  {
    assert EndsWith(url + "/", "/") by { assert (url + "/")[|url|..] == "/"; }
  }

  /** The site URL every link of a row starts with. */
  function BaseUrl(configured: Option<string>): string {
    StripTrailingSlash(SiteBaseUrl(configured))
  }

  // ---------------------------------------------------------------------------
  // Button images
  // ---------------------------------------------------------------------------

  datatype ButtonType = TrackButton | ApplyButton

  function ButtonTypeName(t: ButtonType): string {
    match t
    case TrackButton => "track"
    case ApplyButton => "apply"
  }

  function ButtonAlt(t: ButtonType): string {
    if t == ApplyButton then "Apply" else "Track"
  }

  /** ` width="w"` for a given, non-zero width (JavaScript truthiness); nothing otherwise. */
  function WidthAttr(width: Option<int>): string {
    if width.Some? && width.value != 0 then " width=\"" + IntToString(width.value) + "\"" else ""
  }

  /** The image file of a button. */
  function ButtonSrc(t: ButtonType): string {
    "readme-buttons/" + ButtonTypeName(t) + ".svg"
  }

  /** ` alt="Apply"` or ` alt="Track"`, opening the tag. */
  function AltAttr(t: ButtonType): string {
    "<img alt=\"" + ButtonAlt(t) + "\""
  }

  function SrcAttr(t: ButtonType): string {
    " src=\"" + ButtonSrc(t) + "\""
  }

  function CreateReadmeButtonImg(t: ButtonType, width: Option<int>): string {
    AltAttr(t) + SrcAttr(t) + WidthAttr(width) + " />"
  }

  /** A piece between two others is contained in the whole. */
  lemma ContainsMiddle(a: string, m: string, b: string)
    ensures Contains(a + m + b, m)
  {
    assert (a + m + b)[|a|..|a| + |m|] == m;
    ContainsWitness(a + m + b, m, |a|);
  }

  /** A piece after a first one and before two more is contained in the whole. */
  lemma ContainsSecond(a: string, m: string, b: string, c: string)
    ensures Contains(a + m + b + c, m)
  {
    assert (a + m + b + c)[|a|..|a| + |m|] == m;
    ContainsWitness(a + m + b + c, m, |a|);
  }

  /**
   * A text `pre + mid + q + ...` with `q` one character long starts with
   * `pre + x + q`, for `x` as long as `mid`, exactly when `x` is `mid`.
   */
  lemma StartsWithMiddle(pre: string, mid: string, q: string, b: string, c: string, d: string, x: string)
    requires |x| == |mid| && |q| == 1
    ensures StartsWith(pre + mid + q + b + c + d, pre + x + q) <==> x == mid
  {
    var s := pre + mid + q + b + c + d;
    var n := |pre| + |mid|;
    assert s[..n + 1] == pre + mid + q;
    if s[..n + 1] == pre + x + q {
      assert forall k :: 0 <= k < |mid| ==> mid[k] == s[|pre| + k] == x[k];
    }
  }

  /** The alt text is "Apply" exactly for the apply button, and "Track" for the track button. */
  lemma ButtonImgAlt(t: ButtonType, width: Option<int>)
    ensures StartsWith(CreateReadmeButtonImg(t, width), "<img alt=\"" + "Apply" + "\"") <==> t == ApplyButton
    ensures StartsWith(CreateReadmeButtonImg(t, width), "<img alt=\"" + "Track" + "\"") <==> t == TrackButton
  {
    var pre, alt, q := "<img alt=\"", ButtonAlt(t), "\"";
    StartsWithMiddle(pre, alt, q, SrcAttr(t), WidthAttr(width), " />", "Apply");
    StartsWithMiddle(pre, alt, q, SrcAttr(t), WidthAttr(width), " />", "Track");
  }

  /** The image shows the button's own SVG. */
  lemma ButtonImgSource(t: ButtonType, width: Option<int>)
    ensures Contains(CreateReadmeButtonImg(t, width), " src=\"" + ButtonSrc(t) + "\"")
    ensures var img, k := CreateReadmeButtonImg(t, width), |AltAttr(t)|;
      k + |SrcAttr(t)| <= |img| && img[k..k + |SrcAttr(t)|] == " src=\"" + ButtonSrc(t) + "\""
  {
    ContainsSecond(AltAttr(t), SrcAttr(t), WidthAttr(width), " />");
    var a, b := AltAttr(t), SrcAttr(t);
    var rest := WidthAttr(width) + " />";
    assert CreateReadmeButtonImg(t, width) == a + b + rest;
    assert (a + b + rest)[|a|..|a| + |b|] == b;
  }

  /** After a head without `w`, the width attribute is there exactly when a non-zero width is given. */
  lemma WidthAttrAfter(head: string, width: Option<int>)
    requires 'w' !in head
    ensures Contains(head + WidthAttr(width) + " />", " width=\"") <==> width.Some? && width.value != 0
    ensures width.Some? && width.value != 0 ==> Contains(head + WidthAttr(width) + " />", WidthAttr(width))
  {
    var attr := WidthAttr(width);
    if width.Some? && width.value != 0 {
      ContainsMiddle(head, attr, " />");
      var w := " width=\"";
      assert attr == w + (IntToString(width.value) + "\"");
      assert head + attr + " />" == head + w + (IntToString(width.value) + "\"" + " />");
      ContainsMiddle(head, w, IntToString(width.value) + "\"" + " />");
    } else {
      assert 'w' !in " />";
      assert " width=\""[1] == 'w';
      assert head + attr + " />" == head + " />";
      AbsentByCharAt(head + " />", " width=\"", 1);
    }
  }

  /** A width attribute appears exactly when a non-zero width is given, and then carries that width. */
  lemma ButtonImgWidth(t: ButtonType, width: Option<int>)
    ensures Contains(CreateReadmeButtonImg(t, width), " width=\"") <==> width.Some? && width.value != 0
    ensures width.Some? && width.value != 0 ==>
      Contains(CreateReadmeButtonImg(t, width), " width=\"" + IntToString(width.value) + "\"")
  {
    assert 'w' !in ButtonAlt(t) && 'w' !in ButtonSrc(t);
    assert 'w' !in "<img alt=\"" && 'w' !in "\"" && 'w' !in " src=\"";
    WidthAttrAfter(AltAttr(t) + SrcAttr(t), width);
  }

  // ---------------------------------------------------------------------------
  // Escaping pipes
  // ---------------------------------------------------------------------------

  /** `replaceAll("|", "\\|")`: every pipe gets a backslash in front of it. */
  function EscapePipes(text: string): (r: string)
    ensures |r| == |text| + CountChar(text, '|')
    decreases |text|
  {
    if |text| == 0 then ""
    else
      assert multiset(text)['|'] == multiset([text[0]])['|'] + multiset(text[1..])['|'] by {
        assert text == [text[0]] + text[1..];
      }
      (if text[0] == '|' then "\\|" else [text[0]]) + EscapePipes(text[1..])
  }

  /** Reading back: a backslash directly before a pipe is dropped. */
  function UnescapePipes(s: string): string
    decreases |s|
  {
    if |s| == 0 then ""
    else if |s| >= 2 && s[0] == '\\' && s[1] == '|' then "|" + UnescapePipes(s[2..])
    else [s[0]] + UnescapePipes(s[1..])
  }

  /** Escaping loses nothing: unescaping gives the text back. */
  lemma {:induction false} UnescapeEscapePipes(text: string)
    ensures UnescapePipes(EscapePipes(text)) == text
    decreases |text|
  {
    if |text| > 0 {
      var rest := text[1..];
      var e := EscapePipes(rest);
      UnescapeEscapePipes(rest);
      EscapedHeadIsNotPipe(rest);
      EscapePipesCons(text);
      if text[0] == '|' {
        UnescapeBackslashPipe(e);
      } else {
        UnescapeOther(text[0], e);
      }
      assert text == [text[0]] + rest;
    }
  }

  /** Escaping works one character at a time. */
  lemma EscapePipesCons(text: string)
    requires |text| > 0
    ensures EscapePipes(text) == (if text[0] == '|' then "\\|" else [text[0]]) + EscapePipes(text[1..])
  {
  }

  /** An escaped text never starts with a bare pipe. */
  lemma EscapedHeadIsNotPipe(text: string)
    ensures |EscapePipes(text)| > 0 ==> EscapePipes(text)[0] != '|'
  {
    if |text| > 0 {
      EscapePipesCons(text);
    }
  }

  lemma UnescapeBackslashPipe(e: string)
    ensures UnescapePipes("\\|" + e) == "|" + UnescapePipes(e)
  {
    assert ("\\|" + e)[2..] == e;
  }

  lemma UnescapeOther(c: char, e: string)
    requires c != '|'
    requires |e| > 0 ==> e[0] != '|'
    ensures UnescapePipes([c] + e) == [c] + UnescapePipes(e)
  {
    assert ([c] + e)[1..] == e;
  }

  /** Every pipe of the escaped text comes right after a backslash. */
  lemma {:induction false} EscapedPipesFollowBackslash(text: string)
    ensures forall i :: 0 <= i < |EscapePipes(text)| && EscapePipes(text)[i] == '|' ==>
      0 < i && EscapePipes(text)[i - 1] == '\\'
    decreases |text|
  {
    if |text| > 0 {
      EscapedPipesFollowBackslash(text[1..]);
      var e := EscapePipes(text[1..]);
      var h := if text[0] == '|' then "\\|" else [text[0]];
      assert EscapePipes(text) == h + e;
      forall i | 0 <= i < |h + e| && (h + e)[i] == '|'
        ensures 0 < i && (h + e)[i - 1] == '\\'
      {
        if i >= |h| {
          var j := i - |h|;
          assert (h + e)[i] == e[j];
          if j > 0 {
            assert (h + e)[i - 1] == e[j - 1];
          }
        } else {
          assert (h + e)[i] == h[i];
          if i == 1 {
            assert (h + e)[0] == h[0];
          }
        }
      }
    }
  }

  /** The escaped text holds the same characters, plus a backslash when there was a pipe. */
  lemma {:induction false} EscapePipesChars(text: string, c: char)
    ensures c in EscapePipes(text) <==> c in text || (c == '\\' && '|' in text)
    decreases |text|
  {
    if |text| > 0 {
      EscapePipesChars(text[1..], c);
      EscapePipesCons(text);
      assert text == [text[0]] + text[1..];
      var h := if text[0] == '|' then "\\|" else [text[0]];
      assert c in h + EscapePipes(text[1..]) <==> c in h || c in EscapePipes(text[1..]);
    }
  }

  /** Text without a pipe is left as it is. */
  lemma {:induction false} EscapeWithoutPipes(text: string)
    requires '|' !in text
    ensures EscapePipes(text) == text
    decreases |text|
  {
    if |text| > 0 {
      assert text[0] != '|' && '|' !in text[1..] by {
        assert text == [text[0]] + text[1..];
      }
      EscapeWithoutPipes(text[1..]);
      EscapePipesCons(text);
      assert text == [text[0]] + text[1..];
    }
  }

  // ---------------------------------------------------------------------------
  // The row of one job
  // ---------------------------------------------------------------------------

  /** The job's page on the site, with the campaign parameters. */
  function TrackHref(baseUrl: string, jobPostingId: string): string {
    baseUrl + JobPathMarker + jobPostingId + "?" + UtmParams
  }

  function CompanyMarkdown(job: ExportReadmeJob, baseUrl: string): string {
    "[" + EscapePipes(job.companyName) + "](" + baseUrl + "/company/" + job.companyId + "?" + UtmParams + ")"
  }

  function TrackMarkdown(jobPostingId: string, baseUrl: string): string {
    "<a href=\"" + TrackHref(baseUrl, jobPostingId) + "\">" + CreateReadmeButtonImg(TrackButton, Some(ButtonWidth)) + "</a>"
  }

  /** A link button when the posting has a (non-empty) application URL, `-` otherwise. */
  function ApplyMarkdown(applyUrl: Option<string>): string {
    if applyUrl.Some? && applyUrl.value != "" then
      "<a href=\"" + applyUrl.value + "\">" + CreateReadmeButtonImg(ApplyButton, Some(ButtonWidth)) + "</a>"
    else
      "-"
  }

  /**
   * The apply cell is the placeholder `-` exactly when there is no application
   * URL or it is empty; otherwise it is a link on that URL.
   */
  lemma ApplyCellPlaceholder(applyUrl: Option<string>)
    ensures ApplyMarkdown(applyUrl) == "-" <==> applyUrl.None? || applyUrl.value == ""
    ensures applyUrl.Some? && applyUrl.value != "" ==>
      StartsWith(ApplyMarkdown(applyUrl), "<a href=\"" + applyUrl.value + "\">")
  {
    if applyUrl.Some? && applyUrl.value != "" {
      var head := "<a href=\"" + applyUrl.value + "\">";
      var m := ApplyMarkdown(applyUrl);
      assert m == head + (CreateReadmeButtonImg(ApplyButton, Some(ButtonWidth)) + "</a>");
      assert m[..|head|] == head;
      assert |m| > 1;
    }
  }

  /** The table row of one exported job; `formatDate` renders the creation date. */
  function BuildRow(job: ExportReadmeJob, baseUrl: string, formatDate: string -> string): ReadmeJobRow {
    ReadmeJobRow(
      CompanyMarkdown(job, baseUrl),
      EscapePipes(job.title),
      TrackMarkdown(job.jobPostingId, baseUrl),
      ApplyMarkdown(job.applyUrl),
      formatDate(job.createdAt))
  }

  // ---------------------------------------------------------------------------
  // The desired rows
  // ---------------------------------------------------------------------------

  /** The job ids in export order, repeats included. */
  function DesiredOrder(jobs: seq<ExportReadmeJob>): seq<string> {
    seq(|jobs|, i requires 0 <= i < |jobs| => jobs[i].jobPostingId)
  }

  /** The rows by job id, set job after job. */
  function DesiredRowsById(jobs: seq<ExportReadmeJob>, baseUrl: string, formatDate: string -> string): map<string, ReadmeJobRow>
    decreases |jobs|
  {
    if |jobs| == 0 then map[]
    else
      var last := jobs[|jobs| - 1];
      DesiredRowsById(jobs[..|jobs| - 1], baseUrl, formatDate)[last.jobPostingId := BuildRow(last, baseUrl, formatDate)]
  }

  /** No later job has the id of job `i`. */
  predicate IsLastWithId(jobs: seq<ExportReadmeJob>, i: int)
    requires 0 <= i < |jobs|
  {
    forall j :: i < j < |jobs| ==> jobs[j].jobPostingId != jobs[i].jobPostingId
  }

  /** The map holds exactly the exported ids. */
  lemma {:induction false} DesiredRowsKeys(jobs: seq<ExportReadmeJob>, baseUrl: string, formatDate: string -> string)
    ensures forall id :: id in DesiredRowsById(jobs, baseUrl, formatDate) <==> id in DesiredOrder(jobs)
    decreases |jobs|
  {
    if |jobs| > 0 {
      var init := jobs[..|jobs| - 1];
      DesiredRowsKeys(init, baseUrl, formatDate);
      assert DesiredOrder(jobs) == DesiredOrder(init) + [jobs[|jobs| - 1].jobPostingId];
    }
  }

  /** An id repeated by several jobs maps to the row of the last of them. */
  lemma {:induction false} DesiredRowsLastWins(jobs: seq<ExportReadmeJob>, baseUrl: string, formatDate: string -> string, i: int)
    requires 0 <= i < |jobs| && IsLastWithId(jobs, i)
    ensures jobs[i].jobPostingId in DesiredRowsById(jobs, baseUrl, formatDate)
    ensures DesiredRowsById(jobs, baseUrl, formatDate)[jobs[i].jobPostingId] == BuildRow(jobs[i], baseUrl, formatDate)
    decreases |jobs|
  {
    if i < |jobs| - 1 {
      var init := jobs[..|jobs| - 1];
      assert jobs[i] == init[i];
      assert IsLastWithId(init, i);
      DesiredRowsLastWins(init, baseUrl, formatDate, i);
    }
  }

  lemma DesiredStep(jobs: seq<ExportReadmeJob>, baseUrl: string, formatDate: string -> string, n: nat)
    requires n < |jobs|
    ensures DesiredOrder(jobs[..n + 1]) == DesiredOrder(jobs[..n]) + [jobs[n].jobPostingId]
    ensures DesiredRowsById(jobs[..n + 1], baseUrl, formatDate)
         == DesiredRowsById(jobs[..n], baseUrl, formatDate)[jobs[n].jobPostingId := BuildRow(jobs[n], baseUrl, formatDate)]
  {
    assert jobs[..n + 1][..n] == jobs[..n];
  }

  /** The loop that fills the order and the map, one exported job at a time. */
  method BuildDesiredRows(jobs: seq<ExportReadmeJob>, baseUrl: string, formatDate: string -> string)
    returns (byId: map<string, ReadmeJobRow>, order: seq<string>)
    ensures order == DesiredOrder(jobs)
    ensures byId == DesiredRowsById(jobs, baseUrl, formatDate)
  {
    byId := map[];
    order := [];
    for n := 0 to |jobs|
      invariant order == DesiredOrder(jobs[..n])
      invariant byId == DesiredRowsById(jobs[..n], baseUrl, formatDate)
    {
      var job := jobs[n];
      DesiredStep(jobs, baseUrl, formatDate, n);
      order := order + [job.jobPostingId];
      byId := byId[job.jobPostingId := BuildRow(job, baseUrl, formatDate)];
    }
    assert jobs[..|jobs|] == jobs;
  }

  // ---------------------------------------------------------------------------
  // The track cell gives the job id back
  // ---------------------------------------------------------------------------

  /**
   * In `pre + base + "/job/" + id + post` the leftmost job-id match is the one
   * right after `base`, when `pre` has no slash and `base` has no `/job/`.
   */
  lemma FirstMatchAfterBase(pre: string, base: string, id: string, post: string)
    requires '/' !in pre
    requires !Contains(base, JobPathMarker)
    requires IsJobIdShaped(id)
    ensures FirstJobIdMatch(pre + base + JobPathMarker + id + post, 0) == Some(|pre| + |base|)
  {
    var m := JobPathMarker;
    var cell := pre + base + m + id + post;
    var p := |pre| + |base|;
    assert m == "/job/";
    assert cell[p..p + 5] == m;
    assert cell[p + 5..p + 5 + JobIdLength] == id;
    assert JobIdMatchAt(cell, p);
    forall k | 0 <= k < p
      ensures !JobIdMatchAt(cell, k)
    {
      if k < |pre| {
        assert cell[k] == pre[k];
        if k + 5 <= |cell| {
          assert cell[k..k + 5][0] == cell[k];
        }
      } else if k + 5 <= p {
        assert !OccursAt(base, m, k - |pre|);
        assert cell[k..k + 5] == base[k - |pre|..k - |pre| + 5];
      } else if k < p - 3 {
        assert k == p - 4;
        assert cell[p + 1] == 'j';
        assert cell[k + 5..k + 5 + JobIdLength][0] == cell[p + 1];
      } else {
        assert cell[p] == '/';
        assert cell[k..k + 5][p - k] == cell[p];
      }
    }
  }

  lemma TrackMarkdownParts(jobPostingId: string, baseUrl: string)
    ensures TrackMarkdown(jobPostingId, baseUrl)
         == "<a href=\"" + baseUrl + JobPathMarker + jobPostingId
            + ("?" + UtmParams + "\">" + CreateReadmeButtonImg(TrackButton, Some(ButtonWidth)) + "</a>")
  {
  }

  lemma TrackMarkdownTrimmed(jobPostingId: string, baseUrl: string)
    ensures Trim(TrackMarkdown(jobPostingId, baseUrl)) == TrackMarkdown(jobPostingId, baseUrl)
  {
    var t := TrackMarkdown(jobPostingId, baseUrl);
    assert t[0] == '<';
    assert t[|t| - 1] == '>';
    TrimOfTrimmed(t);
  }

  /**
   * For an id of 36 hex digits or hyphens, and a site URL without `/job/`,
   * the track cell gives the id back.
   */
  lemma TrackCellGivesId(jobPostingId: string, baseUrl: string, cells: seq<string>)
    requires IsJobIdShaped(jobPostingId)
    requires !Contains(baseUrl, JobPathMarker)
    requires |cells| >= 3 && cells[2] == Trim(TrackMarkdown(jobPostingId, baseUrl))
    ensures ExtractJobPostingIdFromTrackCell(cells) == Some(jobPostingId)
  {
    TrackMarkdownTrimmed(jobPostingId, baseUrl);
    TrackMarkdownParts(jobPostingId, baseUrl);
    var pre := "<a href=\"";
    assert '/' !in pre;
    var post := "?" + UtmParams + "\">" + CreateReadmeButtonImg(TrackButton, Some(ButtonWidth)) + "</a>";
    FirstMatchAfterBase(pre, baseUrl, jobPostingId, post);
    var p := |pre| + |baseUrl|;
    var cell := cells[2];
    assert cell == pre + baseUrl + JobPathMarker + jobPostingId + post;
    assert cell[p + |JobPathMarker|..p + |JobPathMarker| + JobIdLength] == jobPostingId;
  }

  // ---------------------------------------------------------------------------
  // Rows the parser reads back unchanged
  // ---------------------------------------------------------------------------

  /** Text without a pipe or a line break. */
  predicate Plain(s: string) {
    '|' !in s && '\n' !in s
  }

  predicate IsAsciiLetter(c: char) {
    'A' <= c <= 'Z' || 'a' <= c <= 'z'
  }

  /** A trimmed cell that starts with a non-letter is no header word. */
  lemma NotHeaderByFirstChar(f: string)
    requires |f| > 0 && IsTrimmed(f) && !IsAsciiLetter(f[0])
    ensures !IsHeaderCell(Trim(f))
  {
    TrimOfTrimmed(f);
    assert AsciiLower(f)[0] == f[0];
  }

  /** A button image holds no pipe and no line break. */
  lemma WidthAttrPlain(width: Option<int>)
    ensures Plain(WidthAttr(width))
  {
    if width.Some? && width.value != 0 {
      var digits := IntToString(width.value);
      assert Plain(digits) by {
        if width.value < 0 {
          assert digits == "-" + NatToString(-width.value);
        }
      }
      assert Plain(" width=\"") && Plain("\"");
    }
  }

  lemma ButtonImgPlain(t: ButtonType, width: Option<int>)
    ensures Plain(CreateReadmeButtonImg(t, width))
  {
    WidthAttrPlain(width);
    AltAttrPlain(t);
    SrcAttrPlain(t);
    assert Plain(" />");
  }

  lemma AltAttrPlain(t: ButtonType)
    ensures Plain(AltAttr(t))
  {
    assert Plain("<img alt=\"") && Plain("\"") && Plain(ButtonAlt(t));
  }

  lemma SrcAttrPlain(t: ButtonType)
    ensures Plain(SrcAttr(t))
  {
    assert Plain(ButtonSrc(t)) by {
      assert Plain("readme-buttons/") && Plain(ButtonTypeName(t)) && Plain(".svg");
    }
    assert Plain(" src=\"") && Plain("\"");
  }

  lemma UtmParamsPlain()
    ensures Plain(UtmParams)
  {
  }

  lemma CompanyCellStable(job: ExportReadmeJob, baseUrl: string)
    requires Plain(job.companyName) && Plain(job.companyId) && Plain(baseUrl)
    ensures StableCell(CompanyMarkdown(job, baseUrl))
  {
    EscapeWithoutPipes(job.companyName);
    UtmParamsPlain();
    var cell := CompanyMarkdown(job, baseUrl);
    assert Plain("[") && Plain("](") && Plain("/company/") && Plain("?") && Plain(")");
    assert Plain(cell);
    assert cell[0] == '[' && cell[|cell| - 1] == ')';
    NotHeaderByFirstChar(cell);
  }

  lemma TrackCellPlain(jobPostingId: string, baseUrl: string)
    requires IsJobIdShaped(jobPostingId) && Plain(baseUrl)
    ensures Plain(TrackMarkdown(jobPostingId, baseUrl))
  {
    UtmParamsPlain();
    ButtonImgPlain(TrackButton, Some(ButtonWidth));
    assert Plain(jobPostingId) by {
      forall k | 0 <= k < |jobPostingId| ensures IsJobIdChar(jobPostingId[k]) { }
    }
    assert Plain("<a href=\"") && Plain(JobPathMarker) && Plain("?") && Plain("\">") && Plain("</a>");
  }

  lemma TrackCellStable(jobPostingId: string, baseUrl: string)
    requires IsJobIdShaped(jobPostingId) && Plain(baseUrl) && !Contains(baseUrl, JobPathMarker)
    ensures StableCell(TrackMarkdown(jobPostingId, baseUrl))
    ensures !IsSeparatorCell(Trim(TrackMarkdown(jobPostingId, baseUrl)))
    ensures exists i :: JobIdMatchAt(Trim(TrackMarkdown(jobPostingId, baseUrl)), i)
  {
    var cell := TrackMarkdown(jobPostingId, baseUrl);
    TrackMarkdownTrimmed(jobPostingId, baseUrl);
    TrackCellPlain(jobPostingId, baseUrl);
    assert cell[0] == '<';
    NotHeaderByFirstChar(cell);
    TrackCellGivesId(jobPostingId, baseUrl, ["", "", cell]);
  }

  lemma ApplyCellStable(applyUrl: Option<string>)
    requires applyUrl.Some? ==> Plain(applyUrl.value)
    ensures StableCell(ApplyMarkdown(applyUrl))
  {
    var cell := ApplyMarkdown(applyUrl);
    if applyUrl.Some? && applyUrl.value != "" {
      ButtonImgPlain(ApplyButton, Some(ButtonWidth));
      assert Plain("<a href=\"") && Plain("\">") && Plain("</a>");
      assert cell[0] == '<' && cell[|cell| - 1] == '>';
    } else {
      assert cell == "-";
    }
    NotHeaderByFirstChar(cell);
  }

  /**
   * What a job must satisfy for its row to come back unchanged from the
   * README: a well-formed id, a site URL without `/job/`, no pipe or line
   * break anywhere, a title and date that are no header word, and no end
   * anchor in the rendered line.
   */
  predicate RendersStably(job: ExportReadmeJob, baseUrl: string, formatDate: string -> string) {
    && IsJobIdShaped(job.jobPostingId)
    && Plain(baseUrl) && !Contains(baseUrl, JobPathMarker)
    && Plain(job.companyName) && Plain(job.companyId) && Plain(job.title)
    && (job.applyUrl.Some? ==> Plain(job.applyUrl.value))
    && Plain(formatDate(job.createdAt))
    && !IsHeaderCell(Trim(job.title)) && !IsHeaderCell(Trim(formatDate(job.createdAt)))
    && !Contains(RowLine(BuildRow(job, baseUrl, formatDate)), JobsTableEnd)
  }

  lemma RowOfTrimmed(line: string)
    requires Trim(line) == line
    ensures RowOf(line).jobPostingId == ExtractJobPostingIdFromTrackCell(SplitTableCells(line))
  {
  }

  /** The rendered row of a job is read back as a data row carrying the job's own id. */
  lemma BuiltRowGivesIdBack(job: ExportReadmeJob, baseUrl: string, formatDate: string -> string)
    requires RendersStably(job, baseUrl, formatDate)
    ensures KindOf(RowLine(BuildRow(job, baseUrl, formatDate))) == DataLine
    ensures RowOf(RowLine(BuildRow(job, baseUrl, formatDate))).jobPostingId == Some(job.jobPostingId)
  {
    var line := RowLine(BuildRow(job, baseUrl, formatDate));
    BuiltRowIsData(job, baseUrl, formatDate);
    BuiltRowTrackCell(job, baseUrl, formatDate);
    RowOfTrimmed(line);
    TrackCellGivesId(job.jobPostingId, baseUrl, SplitTableCells(line));
  }

  /** The rendered row of a job is a data line. */
  lemma BuiltRowIsData(job: ExportReadmeJob, baseUrl: string, formatDate: string -> string)
    requires RendersStably(job, baseUrl, formatDate)
    ensures KindOf(RowLine(BuildRow(job, baseUrl, formatDate))) == DataLine
  {
    BuiltRowStable(job, baseUrl, formatDate);
    StableRowLine(BuildRow(job, baseUrl, formatDate));
  }

  /** The rendered row of a job is trimmed, and its third cell is the trimmed track markdown. */
  lemma BuiltRowTrackCell(job: ExportReadmeJob, baseUrl: string, formatDate: string -> string)
    requires RendersStably(job, baseUrl, formatDate)
    ensures var line := RowLine(BuildRow(job, baseUrl, formatDate));
      && Trim(line) == line
      && |SplitTableCells(line)| == 5
      && SplitTableCells(line)[2] == Trim(TrackMarkdown(job.jobPostingId, baseUrl))
  {
    var r := BuildRow(job, baseUrl, formatDate);
    BuiltRowStable(job, baseUrl, formatDate);
    RowTrackCell(r);
  }


  lemma BuiltRowStable(job: ExportReadmeJob, baseUrl: string, formatDate: string -> string)
    requires RendersStably(job, baseUrl, formatDate)
    ensures StableDbRow(BuildRow(job, baseUrl, formatDate))
  {
    CompanyCellStable(job, baseUrl);
    EscapeWithoutPipes(job.title);
    TrackCellStable(job.jobPostingId, baseUrl);
    ApplyCellStable(job.applyUrl);
  }

  /** Every desired row of stably rendering jobs is a stable row. */
  lemma {:induction false} DesiredRowsStable(jobs: seq<ExportReadmeJob>, baseUrl: string, formatDate: string -> string)
    requires forall i :: 0 <= i < |jobs| ==> RendersStably(jobs[i], baseUrl, formatDate)
    ensures StableRowsById(DesiredRowsById(jobs, baseUrl, formatDate))
    decreases |jobs|
  {
    if |jobs| > 0 {
      var init := jobs[..|jobs| - 1];
      DesiredRowsStable(init, baseUrl, formatDate);
      BuiltRowStable(jobs[|jobs| - 1], baseUrl, formatDate);
    }
  }

  // ---------------------------------------------------------------------------
  // The sync
  // ---------------------------------------------------------------------------

  datatype SyncReadmeResult = SyncReadmeResult(didChange: bool, exportedCount: nat, commitMessage: Option<string>)

  /** The two ways the sync fails: the export query or a README without anchors. */
  datatype SyncError = ExportFailed(queryError: QueryError) | TableFailed(tableError: TableError)

  /** One write sent to GitHub: the new text, the sha it replaces, the commit message. */
  datatype WriteRequest = WriteRequest(newContent: string, sha: string, message: string)

  function CommitMessage(exportedCount: nat): string {
    "sync(readme): update SG internship tech verified jobs (" + NatToString(exportedCount) + ")"
  }

  /** The merge the sync performs on a README text. */
  function SyncMerge(readme: string, jobs: seq<ExportReadmeJob>, baseUrl: string, formatDate: string -> string)
    : Result<MergeResult, TableError>
  {
    Merge(readme, DesiredRowsById(jobs, baseUrl, formatDate), DesiredOrder(jobs))
  }

  /**
   * The README file on GitHub as the sync sees it: the sha of its current
   * version, its text, and the writes sent to it.
   */
  class ReadmeRepository {
    var sha: string
    var content: string
    var writes: seq<WriteRequest>

    constructor (sha: string, content: string)
      ensures this.sha == sha && this.content == content && writes == []
    {
      this.sha := sha;
      this.content := content;
      writes := [];
    }

    method GetReadmeFile() returns (sha: string, content: string)
      ensures sha == this.sha && content == this.content
    {
      sha := this.sha;
      content := this.content;
    }

    /** The write is recorded and the file holds the new text; the sha GitHub assigns is not modelled. */
    method PutReadmeFile(newContent: string, sha: string, message: string)
      modifies this
      ensures writes == old(writes) + [WriteRequest(newContent, sha, message)]
      ensures content == newContent
    {
      writes := writes + [WriteRequest(newContent, sha, message)];
      content := newContent;
    }
  }

  /**
   * Exports the jobs, merges their rows into the README and writes it back
   * only when the merge changed it, against the sha it read.
   */
  method SyncReadmeSgInternTechVerifiedJobs(
    repo: ReadmeRepository,
    query: Result<Option<seq<ExportJobRow>>, QueryError>,
    timeOf: string -> int,
    configuredSiteUrl: Option<string>,
    formatDate: string -> string)
    returns (r: Result<SyncReadmeResult, SyncError>)
    modifies repo
    ensures query.Failure? ==>
      && r == Failure(ExportFailed(query.error))
      && repo.writes == old(repo.writes) && repo.content == old(repo.content) && repo.sha == old(repo.sha)
    ensures query.Success? ==>
      var jobs := ExportSgInternTechVerifiedJobs(query, timeOf).value;
      var merged := SyncMerge(old(repo.content), jobs, BaseUrl(configuredSiteUrl), formatDate);
      && (merged.Failure? ==>
            && r == Failure(TableFailed(merged.error))
            && repo.writes == old(repo.writes) && repo.content == old(repo.content) && repo.sha == old(repo.sha))
      && (merged.Success? && !merged.value.changed ==>
            && r == Success(SyncReadmeResult(false, |jobs|, None))
            && repo.writes == old(repo.writes) && repo.content == old(repo.content) && repo.sha == old(repo.sha))
      && (merged.Success? && merged.value.changed ==>
            && r == Success(SyncReadmeResult(true, |jobs|, Some(CommitMessage(|jobs|))))
            && repo.writes == old(repo.writes) + [WriteRequest(merged.value.nextReadme, old(repo.sha), CommitMessage(|jobs|))]
            && repo.content == merged.value.nextReadme)
  {
    var baseUrl := StripTrailingSlash(SiteBaseUrl(configuredSiteUrl));
    var exported := ExportSgInternTechVerifiedJobs(query, timeOf);
    if exported.Failure? {
      return Failure(ExportFailed(exported.error));
    }
    var jobs := exported.value;
    var byId, order := BuildDesiredRows(jobs, baseUrl, formatDate);
    var sha, content := repo.GetReadmeFile();
    var merged := MergeReadmeJobsTable(content, byId, order);
    if merged.Failure? {
      return Failure(TableFailed(merged.error));
    }
    if !merged.value.changed {
      return Success(SyncReadmeResult(false, |jobs|, None));
    }
    var commitMessage := CommitMessage(|jobs|);
    repo.PutReadmeFile(merged.value.nextReadme, sha, commitMessage);
    r := Success(SyncReadmeResult(true, |jobs|, Some(commitMessage)));
  }

  /**
   * Once a sync has written the README, a sync with the same jobs finds
   * nothing to change, so it writes nothing.
   */
  lemma SecondSyncWritesNothing(readme: string, jobs: seq<ExportReadmeJob>, baseUrl: string, formatDate: string -> string)
    requires SyncMerge(readme, jobs, baseUrl, formatDate).Success?
    requires forall i :: 0 <= i < |jobs| ==> RendersStably(jobs[i], baseUrl, formatDate)
    ensures var next := SyncMerge(readme, jobs, baseUrl, formatDate).value.nextReadme;
      SyncMerge(next, jobs, baseUrl, formatDate) == Success(MergeResult(next, false))
  {
    DesiredRowsStable(jobs, baseUrl, formatDate);
    MergeIsIdempotent(readme, DesiredRowsById(jobs, baseUrl, formatDate), DesiredOrder(jobs));
  }
}
