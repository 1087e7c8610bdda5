/** The package information widget of the older revision,
    `pispy/widgets/package_info.py`: one scrolling column of title and value
    rows, with the artifacts as boxed sub-panels at the end. */
module PackageInfoWidgets {
  import Text
  import NumberFormat
  import Requirements
  import opened Json
  import opened PackageData
  import LegacyPackageData
  import opened Display

  // ---------------------------------------------------------------------------
  // Value widgets

  /** The text a `Value` label shows: the value, or "None" when it is empty. */
  function ValueText(value: string): (r: string)
    ensures r != ""
    ensures value != "" ==> r == value
    ensures value == "" ==> r == "None"
  {
    if value != "" then value else "None"
  }

  /** Whether a `Value` label gets the muted class "none". */
  predicate ValueMuted(value: string) {
    value == ""
  }

  /** An empty value and the value "None" show the same text; only the
      muted style tells them apart. */
  lemma ValueTextOfNone()
    ensures ValueText("") == ValueText("None")
    ensures ValueMuted("") && !ValueMuted("None")
  {
  }

  /** The Markdown a `URL` widget renders: the URL as an autolink
      `<url>`, or an emphasised "None" for an empty URL. */
  function UrlMarkdown(url: string): (r: string)
    ensures url == "" ==> r == "*None*"
    ensures url != "" ==> |r| == |url| + 2 && r[0] == '<' && r[|r| - 1] == '>' && r[1..|r| - 1] == url
  {
    if url != "" then "<" + url + ">" else "*None*"
  }

  /** Distinct URLs render distinctly, so the URL can be read back. */
  lemma {:induction false} UrlMarkdownInjective(a: string, b: string)
    ensures UrlMarkdown(a) == UrlMarkdown(b) <==> a == b
  {
    if UrlMarkdown(a) == UrlMarkdown(b) {
      if a != "" && b != "" {
        assert a == UrlMarkdown(a)[1..|UrlMarkdown(a)| - 1];
      }
    }
  }

  // ---------------------------------------------------------------------------
  // Artifact panel

  /** The widgets `PackageURLData.digests` yields: a title and a value per
      digest, in mapping order, whatever the value. */
  function DigestWidgets(digests: seq<(string, string)>): (r: seq<Widget>)
    ensures |r| == 2 * |digests|
    ensures forall i :: 0 <= i < |digests| ==>
      r[2 * i] == Title(digests[i].0 + ":") && r[2 * i + 1] == Content(ValueWidget, Text(digests[i].1))
  {
    if digests == [] then []
    else
      var last := digests[|digests| - 1];
      DigestWidgets(digests[..|digests| - 1]) + [Title(last.0 + ":"), Content(ValueWidget, Text(last.1))]
  }

  /** `PackageURLData.digests`: loops over the digests. */
  method Digests(digests: seq<(string, string)>) returns (ws: seq<Widget>)
    ensures ws == DigestWidgets(digests)
  {
    ws := [];
    var i := 0;
    while i < |digests|
      invariant 0 <= i <= |digests|
      invariant ws == DigestWidgets(digests[..i])
    {
      assert digests[..i + 1][..i] == digests[..i];
      var (name, value) := digests[i];
      ws := ws + [Title(name + ":"), Content(ValueWidget, Text(value))];
      i := i + 1;
    }
    assert digests[..i] == digests;
  }

  /** The nine fixed rows `PackageURLData.compose` starts with. */
  function UrlDataHead(u: PackageUrl): seq<Widget> {
    [ Title("URL:"), Content(UrlWidget, Text(u.url)),
      Title("Package Type:"), Content(ValueWidget, Text(u.packagetype)),
      Title("Python Version:"), Content(ValueWidget, Text(u.pythonVersion)),
      Title("Size:"), Content(ValueWidget, Text(NumberFormat.Grouped(u.size))),
      Title("MD5 Digest:"), Content(ValueWidget, Text(u.md5Digest)),
      Title("Uploaded:"), Content(ValueWidget, Text(u.uploadTimeIso8601)),
      Title("Has Signature:"), Content(ValueWidget, Text(YesNo(u.hasSig))),
      Title("Downloads:"), Content(ValueWidget, Text(NumberFormat.Grouped(u.downloads))),
      Title("Comments:"), Content(ValueWidget, Text(u.commentText)) ]
  }

  /** The two rows `PackageURLData.compose` ends with. */
  function UrlDataTail(u: PackageUrl): seq<Widget> {
    [ Title("Yanked:"), Content(ValueWidget, Text(YesNo(u.yanked))),
      Title("Yanked Reason:"), Content(ValueWidget, Text(u.yankedReason)) ]
  }

  /** The widgets `PackageURLData.compose` yields for an artifact. */
  function UrlDataCompose(u: PackageUrl): seq<Widget> {
    UrlDataHead(u) + DigestWidgets(u.digests) + UrlDataTail(u)
  }

  /** The artifact panel: nine fixed rows (among them Size and Downloads with
      their digits grouped by commas), a row per digest and two more. Every
      row is shown, empty values included. */
  lemma {:induction false} UrlDataLayout(u: PackageUrl)
    ensures |UrlDataCompose(u)| == 22 + 2 * |u.digests|
    ensures UrlDataCompose(u)[1] == Content(UrlWidget, Text(u.url))
    ensures UrlDataCompose(u)[6] == Title("Size:")
    ensures UrlDataCompose(u)[7] == Content(ValueWidget, Text(NumberFormat.Grouped(u.size)))
    ensures UrlDataCompose(u)[14] == Title("Downloads:")
    ensures UrlDataCompose(u)[15] == Content(ValueWidget, Text(NumberFormat.Grouped(u.downloads)))
  {
    var head := UrlDataHead(u);
    var r := UrlDataCompose(u);
    assert r[..18] == head;
  }

  /** After the fixed rows of the artifact panel come the digests, in
      mapping order, then Yanked and Yanked Reason. */
  lemma {:induction false} UrlDataDigests(u: PackageUrl)
    ensures forall i :: 0 <= i < |u.digests| ==>
      UrlDataCompose(u)[18 + 2 * i] == Title(u.digests[i].0 + ":")
      && UrlDataCompose(u)[19 + 2 * i] == Content(ValueWidget, Text(u.digests[i].1))
    ensures UrlDataCompose(u)[18 + 2 * |u.digests|] == Title("Yanked:")
    ensures UrlDataCompose(u)[19 + 2 * |u.digests|] == Content(ValueWidget, Text(YesNo(u.yanked)))
    ensures UrlDataCompose(u)[21 + 2 * |u.digests|] == Content(ValueWidget, Text(u.yankedReason))
  {
    var n := |u.digests|;
    var head, ds, tail := UrlDataHead(u), DigestWidgets(u.digests), UrlDataTail(u);
    var r := UrlDataCompose(u);
    assert |head| == 18;
    assert r[18 + 2 * n..] == tail;
    forall i | 0 <= i < n
      ensures r[18 + 2 * i] == Title(u.digests[i].0 + ":") && r[19 + 2 * i] == Content(ValueWidget, Text(u.digests[i].1))
    {
      assert r[18 + 2 * i] == ds[2 * i] && r[19 + 2 * i] == ds[2 * i + 1];
    }
  }

  /** Every row of the artifact panel is a title followed by its value. */
  lemma {:induction false} UrlDataPairs(u: PackageUrl)
    ensures Alternates(UrlDataCompose(u))
  {
    var head, ds, tail := UrlDataHead(u), DigestWidgets(u.digests), UrlDataTail(u);
    HeadAlternates(u);
    DigestsAlternate(u.digests);
    TailAlternates(u);
    AlternatesAppend(head, ds);
    AlternatesAppend(head + ds, tail);
  }

  lemma HeadAlternates(u: PackageUrl)
    ensures Alternates(UrlDataHead(u))
  {
    var head := UrlDataHead(u);
    forall k | 0 <= k < 9 ensures head[2 * k].Title? && head[2 * k + 1].Content? {
    }
  }

  lemma TailAlternates(u: PackageUrl)
    ensures Alternates(UrlDataTail(u))
  {
    var tail := UrlDataTail(u);
    assert tail[0].Title? && tail[1].Content? && tail[2].Title? && tail[3].Content?;
  }

  lemma DigestsAlternate(digests: seq<(string, string)>)
    ensures Alternates(DigestWidgets(digests))
  {
    var ds := DigestWidgets(digests);
    forall k | 0 <= k < |ds| / 2 ensures ds[2 * k].Title? && ds[2 * k + 1].Content? {
      assert ds[2 * k] == Title(digests[k].0 + ":");
    }
  }

  // ---------------------------------------------------------------------------
  // Rows

  /** The Requires links: one per requirement `parse_requirements` yields,
      in order and with repeats kept. */
  function RequiresLinks(requirements: seq<string>): (r: seq<string>)
    ensures |r| == |Requirements.ProjectNames(requirements)|
    ensures forall i :: 0 <= i < |r| ==> r[i] == SelfLink("screen.lookup", Requirements.ProjectNames(requirements)[i])
  {
    var names := Requirements.ProjectNames(requirements);
    seq(|names|, i requires 0 <= i < |names| => SelfLink("screen.lookup", names[i]))
  }

  /** The Requires row's text. */
  function RequiresText(requirements: seq<string>): string {
    Text.Join(RequiresLinks(requirements), ", ")
  }

  /** The Requires text is empty, and its row suppressed, exactly when every
      requirement string is blank or a comment. */
  lemma {:induction false} RequiresTextEmpty(requirements: seq<string>)
    ensures RequiresText(requirements) == "" <==> Requirements.RequirementLines(requirements) == []
  {
    var links := RequiresLinks(requirements);
    Text.JoinEmptyIff(links, ", ");
  }

  /** The widget the description is shown with. */
  function DescriptionKind(p: Package): (k: Kind)
    ensures k == MarkdownWidget <==> p.descriptionContentType == "text/markdown"
    ensures k == MarkdownWidget || k == ValueWidget
  {
    if p.descriptionContentType == "text/markdown" then MarkdownWidget else ValueWidget
  }

  /** The eighteen fixed rows `show` starts with. */
  function InfoHead(p: Package): seq<Field> {
    [ Field("Name", Text(p.name), ValueWidget),
      Field("Version", Text(p.version), ValueWidget),
      Field("Summary", Text(p.summary), ValueWidget),
      Field("URL", Text(p.packageUrl), UrlWidget),
      Field("Author", Text(p.author), ValueWidget),
      Field("Email", Text(p.authorEmail), ValueWidget),
      Field("Bug Track URL", Text(p.bugtrackUrl), UrlWidget),
      Field("Classifiers", Text(Text.Join(p.classifiers, "\n")), ValueWidget),
      Field("Description", Text(p.description), DescriptionKind(p)),
      Field("Documentation URL", Text(p.docsUrl), UrlWidget),
      Field("Download URL", Text(p.downloadUrl), UrlWidget),
      Field("Homepage", Text(p.homepage), UrlWidget),
      Field("Keywords", Text(Text.Join(p.keywords, ", ")), ValueWidget),
      Field("License", Text(p.license), ValueWidget),
      Field("Maintainer", Text(p.maintainer), ValueWidget),
      Field("Email", Text(p.maintainerEmail), ValueWidget),
      Field("Platform", Text(p.platform), ValueWidget),
      Field("Project URL", Text(p.projectUrl), UrlWidget) ]
  }

  /** The four fixed rows after the project URLs. */
  function InfoTail(p: Package): seq<Field> {
    [ Field("Release URL", Text(p.releaseUrl), UrlWidget),
      Field("Requires", Text(RequiresText(p.requiresDist)), ValueWidget),
      Field("Yanked", Text(YesNo(p.yanked)), ValueWidget),
      Field("Yanked Reason", Text(p.yankedReason), ValueWidget) ]
  }

  /** The rows for the package's own fields. */
  function InfoFields(p: Package): seq<Field> {
    InfoHead(p) + PairFields(p.projectUrls, UrlWidget) + InfoTail(p)
  }

  /** One row per artifact, titled by its file name, in order. */
  function ArtifactRows(urls: seq<PackageUrl>): (r: seq<Field>)
    ensures |r| == |urls|
    ensures forall i :: 0 <= i < |urls| ==> r[i] == Field(urls[i].filename, Record(urls[i]), UrlDataWidget)
  {
    seq(|urls|, i requires 0 <= i < |urls| => Field(urls[i].filename, Record(urls[i]), UrlDataWidget))
  }

  /** The rows `show` hands to `widgets_for` for a found package. */
  function ShowFields(p: Package): seq<Field> {
    InfoFields(p) + ArtifactRows(p.urls)
  }

  /** The Description row is the ninth, shown with a Markdown widget
      exactly for "text/markdown", and shown whenever the description is not
      empty, blank or not. */
  lemma {:induction false} DescriptionRow(p: Package)
    ensures InfoFields(p)[8] == Field("Description", Text(p.description), DescriptionKind(p))
    ensures Shown(InfoFields(p)[8].value) <==> p.description != ""
  {
    var head := InfoHead(p);
    assert |head| == 18;
    assert InfoFields(p)[8] == head[8];
  }

  /** The rows for the package's own fields: eighteen fixed rows, one URL
      row per project URL titled by its key in mapping order, then Release
      URL, Requires (shown exactly when some requirement is neither blank nor
      a comment), Yanked (always shown) and Yanked Reason. */
  lemma {:induction false} InfoLayout(p: Package)
    ensures |InfoFields(p)| == 22 + |p.projectUrls|
    ensures forall i :: 0 <= i < |p.projectUrls| ==>
      InfoFields(p)[18 + i] == Field(p.projectUrls[i].0, Text(p.projectUrls[i].1), UrlWidget)
    ensures InfoFields(p)[19 + |p.projectUrls|] == Field("Requires", Text(RequiresText(p.requiresDist)), ValueWidget)
    ensures Shown(InfoFields(p)[19 + |p.projectUrls|].value) <==> Requirements.RequirementLines(p.requiresDist) != []
    ensures InfoFields(p)[20 + |p.projectUrls|] == Field("Yanked", Text(YesNo(p.yanked)), ValueWidget)
    ensures Shown(InfoFields(p)[20 + |p.projectUrls|].value)
  {
    var head, urls, tail := InfoHead(p), PairFields(p.projectUrls, UrlWidget), InfoTail(p);
    var r := InfoFields(p);
    assert |head| == 18;
    assert r[18 + |urls|..] == tail;
    RequiresTextEmpty(p.requiresDist);
  }

  /** The rows of a found package are its own rows followed by one row per
      artifact, titled by the file name, in order. */
  lemma {:induction false} ShowLayout(p: Package)
    ensures |ShowFields(p)| == 22 + |p.projectUrls| + |p.urls|
    ensures ShowFields(p)[..22 + |p.projectUrls|] == InfoFields(p)
    ensures forall i :: 0 <= i < |p.urls| ==>
      ShowFields(p)[22 + |p.projectUrls| + i] == Field(p.urls[i].filename, Record(p.urls[i]), UrlDataWidget)
  {
    var info := InfoFields(p);
    var rows := ArtifactRows(p.urls);
    InfoLayout(p);
    forall i | 0 <= i < |p.urls|
      ensures ShowFields(p)[22 + |p.projectUrls| + i] == Field(p.urls[i].filename, Record(p.urls[i]), UrlDataWidget)
    {
      assert ShowFields(p)[|info| + i] == rows[i];
    }
  }

  /** The widgets of the artifact rows close the column: a title with the
      file name and an artifact panel for every artifact, in order. */
  lemma {:induction false} ArtifactWidgets(urls: seq<PackageUrl>)
    ensures PairsOf(Widgets(ArtifactRows(urls)), ArtifactRows(urls))
  {
    ShownFieldsAll(ArtifactRows(urls));
    WidgetsArePairs(ArtifactRows(urls));
  }

  /** The column of a found package ends with one title and panel per
      artifact, in order, after the widgets of the package's own fields. */
  lemma {:induction false} ShowWidgets(p: Package)
    ensures Widgets(ShowFields(p)) == Widgets(InfoFields(p)) + Widgets(ArtifactRows(p.urls))
    ensures |Widgets(ArtifactRows(p.urls))| == 2 * |p.urls|
    ensures forall i :: 0 <= i < |p.urls| ==>
      Widgets(ArtifactRows(p.urls))[2 * i] == Title(p.urls[i].filename + ":")
      && Widgets(ArtifactRows(p.urls))[2 * i + 1] == Content(UrlDataWidget, Record(p.urls[i]))
  {
    WidgetsAppend(InfoFields(p), ArtifactRows(p.urls));
    ArtifactWidgets(p.urls);
  }

  // ---------------------------------------------------------------------------
  // The widget

  /** The `VerticalScroll` that shows a package: the widgets mounted in it. */
  class PackageInfo {
    var children: seq<Widget>

    constructor ()
      ensures children == []
    {
      children := [];
    }

    /** `show`, with the registry's reply to the lookup of `name` given as
        `status` and `payload`. A blank name changes nothing; otherwise the
        old widgets go, and the package's rows, or an error label, come. */
    method Show(name: string, status: int, payload: Members)
      modifies this
      ensures Text.AllSpace(name) ==> children == old(children)
      ensures !Text.AllSpace(name) && status == 200 ==>
        children == Widgets(ShowFields(LegacyPackageData.FromPypi(status, payload).1))
      ensures !Text.AllSpace(name) && status != 200 ==> children == [Label("Not found", true)]
    {
      if Text.AllSpace(name) {
        return;
      }
      // `remove_children`, then `mount` what the lookup gives
      var lookup := LegacyPackageData.FromPypi(status, payload);
      var found := lookup.0;
      if found {
        children := WidgetsFor(ShowFields(lookup.1));
      } else {
        children := [Label("Not found", true)];
      }
    }
  }
}
