/** The package information widget of the newer revision,
    `src/pispy/widgets/package_information.py`: a tabbed view with a Details
    pane, an optional Description pane and one pane per artifact. */
module PackageInformationWidgets {
  import Text
  import NumberFormat
  import Requirements
  import opened Json
  import opened PackageData
  import opened Display

  // ---------------------------------------------------------------------------
  // URL

  predicate IsAsciiLetter(c: char) {
    'a' <= c <= 'z' || 'A' <= c <= 'Z'
  }

  /** The characters `urllib.parse` allows in a scheme. */
  predicate IsSchemeChar(c: char) {
    IsAsciiLetter(c) || '0' <= c <= '9' || c == '+' || c == '-' || c == '.'
  }

  /** `url` without its leading C0 control characters and spaces. */
  function StripControls(url: string): (r: string)
    ensures |r| <= |url|
    ensures r != [] ==> r[0] > ' '
    ensures forall j :: 0 <= j < |url| - |r| ==> url[j] <= ' '
  {
    if url != [] && url[0] <= ' ' then StripControls(url[1..]) else url
  }

  /** What is kept is where `url` ends. */
  lemma {:induction false} StripControlsSuffix(url: string)
    ensures StripControls(url) == url[|url| - |StripControls(url)|..]
  {
    if url != [] && url[0] <= ' ' {
      StripControlsSuffix(url[1..]);
    }
  }

  /** The characters `urlsplit` deletes wherever they occur. */
  const UnsafeUrlChars: set<char> := {'\t', '\r', '\n'}

  /** The text `urlsplit` parses: leading controls and spaces stripped, then
      tabs and line breaks removed. */
  function Cleaned(url: string): string {
    Text.Without(StripControls(url), UnsafeUrlChars)
  }

  /** The index of the first ':', or `|s|` when there is none. */
  function ColonIndex(s: string): (i: nat)
    ensures i <= |s|
    ensures i < |s| ==> s[i] == ':'
    ensures forall j :: 0 <= j < i ==> s[j] != ':'
  {
    if s == [] || s[0] == ':' then 0 else 1 + ColonIndex(s[1..])
  }

  /** The scheme `urlparse` finds (before lower-casing it): the text before
      the first ':' when that text is not empty, starts with an ASCII letter
      and holds only scheme characters; "" otherwise. */
  function Scheme(url: string): (r: string)
    ensures r != [] ==> IsAsciiLetter(r[0])
    ensures forall j :: 0 <= j < |r| ==> IsSchemeChar(r[j])
    ensures r != [] ==> |r| < |Cleaned(url)| && r + ":" == Cleaned(url)[..|r| + 1]
  {
    var u := Cleaned(url);
    var i := ColonIndex(u);
    if 0 < i < |u| && IsAsciiLetter(u[0]) && forall j :: 0 <= j < i ==> IsSchemeChar(u[j]) then
      assert u[..i] + ":" == u[..i + 1];
      u[..i]
    else ""
  }

  /** `URL.looks_urlish`: the parsed URL has a scheme. */
  predicate LooksUrlish(url: string) {
    Scheme(url) != ""
  }

  /** Conversely, every text that starts with a well-formed scheme and a ':'
      has that scheme. */
  lemma {:induction false} SchemeOfPrefix(scheme: string, rest: string)
    requires scheme != [] && IsAsciiLetter(scheme[0])
    requires forall j :: 0 <= j < |scheme| ==> IsSchemeChar(scheme[j])
    ensures Scheme(scheme + ":" + rest) == scheme
    ensures LooksUrlish(scheme + ":" + rest)
  {
    var url := scheme + ":" + rest;
    assert StripControls(url) == url;
    var w := Text.Without(rest, UnsafeUrlChars);
    assert Cleaned(url) == scheme + ":" + w by {
      Text.WithoutAppend(scheme + ":", rest, UnsafeUrlChars);
      Text.WithoutNoSeps(scheme + ":", UnsafeUrlChars);
    }
    ColonIndexOfPrefix(scheme, w);
    var u := scheme + ":" + w;
    assert u[..|scheme|] == scheme;
  }

  /** The first ':' of `s + ":" + t` is the one after `s` when `s` has none. */
  lemma {:induction false} ColonIndexOfPrefix(s: string, t: string)
    requires forall j :: 0 <= j < |s| ==> s[j] != ':'
    ensures ColonIndex(s + ":" + t) == |s|
  {
    if s != [] {
      assert (s + ":" + t)[1..] == s[1..] + ":" + t;
      ColonIndexOfPrefix(s[1..], t);
    }
  }

  /** A text without any ':' has no scheme. */
  lemma {:induction false} NoColonNotUrlish(url: string)
    requires forall j :: 0 <= j < |url| ==> url[j] != ':'
    ensures !LooksUrlish(url)
  {
    var s := StripControls(url);
    StripControlsSuffix(url);
    Text.WithoutChars(s, UnsafeUrlChars);
    var u := Cleaned(url);
    assert forall c :: c in s ==> c in url;
    assert ':' !in u;
  }

  /** `URL.__init__`: a link that visits the URL when it looks like one, the
      text itself otherwise. */
  function UrlText(url: string): (r: string)
    ensures r == url <==> !LooksUrlish(url)
    ensures LooksUrlish(url) ==> r == ClickMarkup("visit", url, url)
  {
    if LooksUrlish(url) then SelfLink("visit", url) else url
  }

  // ---------------------------------------------------------------------------
  // Field values

  /** One Requires link per requirement, in `requires_dist` order. */
  function RequiresTokens(requirements: seq<string>): (r: seq<string>)
    ensures |r| == |requirements|
    ensures forall i :: 0 <= i < |r| ==> r[i] == SelfLink("app.lookup", Requirements.Name(requirements[i]))
  {
    seq(|requirements|, i requires 0 <= i < |requirements| => SelfLink("app.lookup", Requirements.Name(requirements[i])))
  }

  /** The Requires links as shown: `sorted(set(...))`. */
  function RequiresList(requirements: seq<string>): seq<string> {
    Text.SortedUnique(RequiresTokens(requirements))
  }

  /** The Requires row's text. */
  function RequiresText(requirements: seq<string>): string {
    Text.Join(RequiresList(requirements), ", ")
  }

  /** The Requires links are in ascending order, hold a link for every
      requirement's name and only such links, and never hold two links to
      the same name. */
  lemma {:induction false} RequiresListSpec(requirements: seq<string>)
    ensures var r := RequiresList(requirements);
      && Text.StrictlySorted(r)
      && (forall i :: 0 <= i < |requirements| ==> SelfLink("app.lookup", Requirements.Name(requirements[i])) in r)
      && (forall t :: t in r ==> exists i :: 0 <= i < |requirements| && t == SelfLink("app.lookup", Requirements.Name(requirements[i])))
      && (forall k, l :: 0 <= k < l < |r| ==> r[k] != r[l])
  {
    var tokens := RequiresTokens(requirements);
    var r := RequiresList(requirements);
    forall i | 0 <= i < |requirements|
      ensures SelfLink("app.lookup", Requirements.Name(requirements[i])) in r
    {
      assert tokens[i] in tokens;
    }
    forall t | t in r
      ensures exists i :: 0 <= i < |requirements| && t == SelfLink("app.lookup", Requirements.Name(requirements[i]))
    {
      var i :| 0 <= i < |tokens| && tokens[i] == t;
    }
    forall k, l | 0 <= k < l < |r|
      ensures r[k] != r[l]
    {
      Text.LessIrreflexive(r[k]);
    }
  }

  /** Names followed by texts that start with a quote compare as the names
      do: the quote sorts below every character a name is made of. */
  lemma {:induction false} NameThenQuote(x: string, s: string, y: string, t: string)
    requires forall i :: 0 <= i < |x| ==> Requirements.IsNameChar(x[i])
    requires forall i :: 0 <= i < |y| ==> Requirements.IsNameChar(y[i])
    requires s != [] && s[0] == '\'' && t != [] && t[0] == '\''
    requires x != y
    ensures Text.Less(x + s, y + t) <==> Text.Less(x, y)
  {
    if x == [] {
      assert (y + t)[0] == y[0];
    } else if y == [] {
      assert (x + s)[0] == x[0];
    } else if x[0] != y[0] {
      assert (x + s)[0] == x[0] && (y + t)[0] == y[0];
    } else {
      assert (x + s)[1..] == x[1..] + s && (y + t)[1..] == y[1..] + t;
      assert x == [x[0]] + x[1..] && y == [y[0]] + y[1..];
      NameThenQuote(x[1..], s, y[1..], t);
    }
  }

  /** The Requires links sort as the names they link to, so the row lists
      the distinct names in ascending order. */
  lemma {:induction false} RequiresOrderByName(a: string, b: string)
    ensures Text.Less(SelfLink("app.lookup", Requirements.Name(a)), SelfLink("app.lookup", Requirements.Name(b)))
      <==> Text.Less(Requirements.Name(a), Requirements.Name(b))
  {
    var x, y := Requirements.Name(a), Requirements.Name(b);
    var s, t := "')]" + (x + "[/]"), "')]" + (y + "[/]");
    Text.LessPrefix("[@click=", "app.lookup" + ("('" + (x + s)), "app.lookup" + ("('" + (y + t)));
    Text.LessPrefix("app.lookup", "('" + (x + s), "('" + (y + t));
    Text.LessPrefix("('", x + s, y + t);
    if x == y {
      Text.LessIrreflexive(x);
      Text.LessIrreflexive(x + s);
    } else {
      NameThenQuote(x, s, y, t);
    }
  }

  /** Two requirements share a Requires link exactly when they name the same
      distribution. */
  lemma RequiresLinkPerName(a: string, b: string)
    ensures SelfLink("app.lookup", Requirements.Name(a)) == SelfLink("app.lookup", Requirements.Name(b))
      <==> Requirements.Name(a) == Requirements.Name(b)
  {
    SelfLinkInjective("app.lookup", Requirements.Name(a), Requirements.Name(b));
  }

  /** The Requires text is empty, and its row suppressed, exactly when there
      are no requirements. */
  lemma {:induction false} RequiresTextEmpty(requirements: seq<string>)
    ensures RequiresText(requirements) == "" <==> requirements == []
  {
    var tokens := RequiresTokens(requirements);
    var r := RequiresList(requirements);
    forall i | 0 <= i < |r| ensures r[i] != "" {
      assert r[i] in tokens;
    }
    Text.JoinEmptyIff(r, ", ");
    if requirements != [] {
      assert tokens[0] in r;
    }
  }

  // ---------------------------------------------------------------------------
  // Rows

  /** The rows `PackageDetails.compose` hands to `widgets_for`. */
  function DetailsFields(p: Package): seq<Field> {
    [ Field("Name", Text(p.name), ValueWidget),
      Field("Version", Text(p.version), ValueWidget),
      Field("Summary", Text(p.summary), ValueWidget),
      Field("URL", Text(p.packageUrl), UrlWidget),
      Field("Author", Text(p.author), ValueWidget),
      Field("Email", Text(p.authorEmail), ValueWidget),
      Field("Bug Track URL", Text(p.bugtrackUrl), UrlWidget),
      Field("Classifiers", Text(Text.Join(p.classifiers, "\n")), ValueWidget),
      Field("Documentation URL", Text(p.docsUrl), UrlWidget),
      Field("Download URL", Text(p.downloadUrl), UrlWidget),
      Field("Homepage", Text(p.homepage), UrlWidget),
      Field("Keywords", Text(Text.Join(p.keywords, ", ")), ValueWidget),
      Field("License", Text(p.license), ValueWidget),
      Field("Maintainer", Text(p.maintainer), ValueWidget),
      Field("Email", Text(p.maintainerEmail), ValueWidget),
      Field("Platform", Text(p.platform), ValueWidget),
      Field("Project URL", Text(p.projectUrl), UrlWidget) ]
    + PairFields(p.projectUrls, UrlWidget)
    + [ Field("Release URL", Text(p.releaseUrl), UrlWidget),
        Field("Requires", Text(RequiresText(p.requiresDist)), ValueWidget),
        Field("Yanked", Text(YesNo(p.yanked)), ValueWidget),
        Field("Yanked Reason", Text(p.yankedReason), ValueWidget) ]
  }

  /** The eight rows `PackageURLDetails.compose` starts with. */
  function ArtifactHead(u: PackageUrl): seq<Field> {
    [ Field("URL", Text(u.url), UrlWidget),
      Field("Package Type", Text(u.packagetype), ValueWidget),
      Field("Python Version", Text(u.pythonVersion), ValueWidget),
      Field("Size", Text(NumberFormat.Grouped(u.size)), ValueWidget),
      Field("MD5 Digest", Text(u.md5Digest), ValueWidget),
      Field("Uploaded", Text(u.uploadTimeIso8601), ValueWidget),
      Field("Has Signature", Text(YesNo(u.hasSig)), ValueWidget),
      Field("Comments", Text(u.commentText), ValueWidget) ]
  }

  /** The two rows `PackageURLDetails.compose` ends with. */
  function ArtifactTail(u: PackageUrl): seq<Field> {
    [ Field("Yanked", Text(YesNo(u.yanked)), ValueWidget),
      Field("Yanked Reason", Text(u.yankedReason), ValueWidget) ]
  }

  /** The rows `PackageURLDetails.compose` hands to `widgets_for`. */
  function ArtifactFields(u: PackageUrl): seq<Field> {
    ArtifactHead(u) + PairFields(u.digests, ValueWidget) + ArtifactTail(u)
  }

  /** The Details rows: seventeen fixed rows, one URL row per project URL
      titled by its key and in mapping order, then Release URL, Requires
      (with the Requires text, shown exactly when there are requirements),
      Yanked (always shown, as "Yes" or "No") and Yanked Reason. */
  lemma {:induction false} DetailsLayout(p: Package)
    ensures |DetailsFields(p)| == 21 + |p.projectUrls|
    ensures DetailsFields(p)[16].title == "Project URL"
    ensures forall i :: 0 <= i < |p.projectUrls| ==>
      DetailsFields(p)[17 + i] == Field(p.projectUrls[i].0, Text(p.projectUrls[i].1), UrlWidget)
    ensures DetailsFields(p)[17 + |p.projectUrls|].title == "Release URL"
    ensures DetailsFields(p)[18 + |p.projectUrls|] == Field("Requires", Text(RequiresText(p.requiresDist)), ValueWidget)
    ensures Shown(DetailsFields(p)[18 + |p.projectUrls|].value) <==> p.requiresDist != []
    ensures DetailsFields(p)[19 + |p.projectUrls|] == Field("Yanked", Text(YesNo(p.yanked)), ValueWidget)
    ensures Shown(DetailsFields(p)[19 + |p.projectUrls|].value)
  {
    RequiresTextEmpty(p.requiresDist);
  }

  /** Where the rows of three lists put one after another end up. */
  lemma ThreeParts(a: seq<Field>, b: seq<Field>, c: seq<Field>)
    ensures |a + b + c| == |a| + |b| + |c|
    ensures forall i :: 0 <= i < |a| ==> (a + b + c)[i] == a[i]
    ensures forall i :: 0 <= i < |b| ==> (a + b + c)[|a| + i] == b[i]
    ensures forall i :: 0 <= i < |c| ==> (a + b + c)[|a| + |b| + i] == c[i]
  {
  }

  /** The artifact rows: eight fixed rows, then one row per digest and two
      more. Size and Has Signature are always shown. */
  lemma {:induction false} ArtifactLayout(u: PackageUrl)
    ensures |ArtifactFields(u)| == 10 + |u.digests|
    ensures ArtifactFields(u)[3] == Field("Size", Text(NumberFormat.Grouped(u.size)), ValueWidget)
    ensures ArtifactFields(u)[6] == Field("Has Signature", Text(YesNo(u.hasSig)), ValueWidget)
    ensures ArtifactFields(u)[7].title == "Comments"
    ensures Shown(ArtifactFields(u)[3].value) && Shown(ArtifactFields(u)[6].value)
  {
    ThreeParts(ArtifactHead(u), PairFields(u.digests, ValueWidget), ArtifactTail(u));
  }

  /** After Comments come one Value row per digest, titled by its key and in
      mapping order, then Yanked, which is always shown, and Yanked Reason. */
  lemma {:induction false} ArtifactDigests(u: PackageUrl)
    ensures |ArtifactFields(u)| == 10 + |u.digests|
    ensures forall i :: 0 <= i < |u.digests| ==>
      ArtifactFields(u)[8 + i] == Field(u.digests[i].0, Text(u.digests[i].1), ValueWidget)
    ensures ArtifactFields(u)[8 + |u.digests|] == Field("Yanked", Text(YesNo(u.yanked)), ValueWidget)
    ensures Shown(ArtifactFields(u)[8 + |u.digests|].value)
  {
    ThreeParts(ArtifactHead(u), PairFields(u.digests, ValueWidget), ArtifactTail(u));
  }

  /** No row of the artifact pane other than a digest row is titled
      "Downloads": the newer pane does not show the download count. */
  lemma {:induction false} ArtifactNoDownloads(u: PackageUrl)
    ensures forall i :: 0 <= i < |ArtifactFields(u)| && !(8 <= i < 8 + |u.digests|) ==>
      ArtifactFields(u)[i].title != "Downloads"
  {
    var head, digests, tail := ArtifactHead(u), PairFields(u.digests, ValueWidget), ArtifactTail(u);
    var n := |u.digests|;
    ThreeParts(head, digests, tail);
    forall i | 0 <= i < 10 + n && !(8 <= i < 8 + n)
      ensures ArtifactFields(u)[i].title != "Downloads"
    {
      if i < 8 {
        assert ArtifactFields(u)[i] == head[i];
      } else {
        assert ArtifactFields(u)[i] == tail[i - 8 - n];
      }
    }
  }

  // ---------------------------------------------------------------------------
  // Panes

  /** A tab pane, holding what it was constructed with; it composes its
      widgets when it is mounted. */
  datatype Pane =
    | DetailsPane(package: Package)          // `PackageDetails`
    | DescriptionPane(package: Package)      // `PackageDescription`
    | ArtifactPane(url: PackageUrl)          // `PackageURLDetails`
    | UnknownPane(name: string)              // `PackageUnknown`

  /** The title each pane passes to `TabPane`. */
  function PaneTitle(pane: Pane): string {
    match pane
    case DetailsPane(_) => "Details"
    case DescriptionPane(_) => "Description"
    case ArtifactPane(u) => u.filename
    case UnknownPane(_) => "[red]Unknown[/]"
  }

  /** The widgets each pane composes. */
  function Compose(pane: Pane): seq<Widget> {
    match pane
    case DetailsPane(p) => Widgets(DetailsFields(p))
    case DescriptionPane(p) =>
      [Content(if p.descriptionContentType == "text/markdown" then MarkdownWidget else ValueWidget, Text(p.description))]
    case ArtifactPane(u) => Widgets(ArtifactFields(u))
    case UnknownPane(name) => [Label("Package '" + name + "' is not available on PyPI", false)]
  }

  /** The Description pane holds a single widget showing the description,
      a Markdown one exactly when the content type is "text/markdown" and a
      Value one otherwise. */
  lemma DescriptionCompose(p: Package)
    ensures var ws := Compose(DescriptionPane(p));
      && |ws| == 1 && ws[0].Content? && ws[0].value == Text(p.description)
      && (ws[0].kind == MarkdownWidget <==> p.descriptionContentType == "text/markdown")
      && (ws[0].kind != MarkdownWidget ==> ws[0].kind == ValueWidget)
  {
  }

  /** One artifact pane per artifact, in order. */
  function ArtifactPanes(urls: seq<PackageUrl>): (r: seq<Pane>)
    ensures |r| == |urls|
    ensures forall i :: 0 <= i < |urls| ==> r[i] == ArtifactPane(urls[i])
  {
    if urls == [] then [] else ArtifactPanes(urls[..|urls| - 1]) + [ArtifactPane(urls[|urls| - 1])]
  }

  /** Whether the description gets a pane of its own: `description.strip()`
      is not empty, that is, the description is not blank
      (`Text.StripEmptyIffBlank`). */
  predicate HasDescription(p: Package) {
    !Text.AllSpace(p.description)
  }

  /** How many panes come between the Details pane and the artifact panes. */
  function Offset(p: Package): nat {
    if HasDescription(p) then 1 else 0
  }

  /** The panes `show` leaves behind for a looked-up package. */
  function PanesFor(name: string, found: bool, p: Package): seq<Pane> {
    if !found then [UnknownPane(name)]
    else if HasDescription(p) then [DetailsPane(p), DescriptionPane(p)] + ArtifactPanes(p.urls)
    else [DetailsPane(p)] + ArtifactPanes(p.urls)
  }

  /** A description gets its pane exactly when `description.strip()` is not
      empty. */
  lemma HasDescriptionIffStripped(p: Package)
    ensures HasDescription(p) <==> Text.Strip(p.description) != ""
  {
    Text.StripEmptyIffBlank(p.description);
  }

  /** The panes for a found package: Details, then Description when there
      is one, then one pane per artifact in order. */
  lemma {:induction false} PanesFound(name: string, p: Package)
    ensures |PanesFor(name, true, p)| == 1 + Offset(p) + |p.urls|
    ensures PanesFor(name, true, p)[0] == DetailsPane(p)
    ensures HasDescription(p) ==> PanesFor(name, true, p)[1] == DescriptionPane(p)
    ensures forall i :: 0 <= i < |p.urls| ==>
      PanesFor(name, true, p)[1 + Offset(p) + i] == ArtifactPane(p.urls[i])
  {
    if HasDescription(p) {
      ArtifactPanesAfter([DetailsPane(p), DescriptionPane(p)], p.urls);
    } else {
      ArtifactPanesAfter([DetailsPane(p)], p.urls);
    }
  }

  /** The artifact panes behind any panes keep their order. */
  lemma ArtifactPanesAfter(head: seq<Pane>, urls: seq<PackageUrl>)
    ensures |head + ArtifactPanes(urls)| == |head| + |urls|
    ensures forall i :: 0 <= i < |urls| ==> (head + ArtifactPanes(urls))[|head| + i] == ArtifactPane(urls[i])
  {
    var tail := ArtifactPanes(urls);
    forall i | 0 <= i < |urls|
      ensures (head + tail)[|head| + i] == ArtifactPane(urls[i])
    {
      assert (head + tail)[|head| + i] == tail[i];
    }
  }

  /** One more turn of the loop of `show` adds the next artifact's pane. */
  lemma ArtifactPanesStep(head: seq<Pane>, urls: seq<PackageUrl>, i: nat)
    requires i < |urls|
    ensures head + ArtifactPanes(urls[..i + 1]) == (head + ArtifactPanes(urls[..i])) + [ArtifactPane(urls[i])]
  {
    assert urls[..i + 1][..i] == urls[..i];
  }

  /** The pane order of `show`: for a found package, Details first, then
      Description exactly when the description is not blank, then one pane
      per artifact in order (each titled by its file name, see `PaneTitle`);
      for a package that is not found, exactly one Unknown pane. */
  lemma {:induction false} PanesLayout(name: string, found: bool, p: Package)
    ensures found ==> |PanesFor(name, found, p)| == 1 + Offset(p) + |p.urls|
    ensures found ==> PanesFor(name, found, p)[0] == DetailsPane(p)
    ensures found && HasDescription(p) ==> PanesFor(name, found, p)[1] == DescriptionPane(p)
    ensures HasDescription(p) <==> Text.Strip(p.description) != ""
    ensures found ==> forall i :: 0 <= i < |p.urls| ==>
      PanesFor(name, found, p)[1 + Offset(p) + i] == ArtifactPane(p.urls[i])
    ensures !found ==> PanesFor(name, found, p) == [UnknownPane(name)]
  {
    HasDescriptionIffStripped(p);
    if found {
      PanesFound(name, p);
    }
  }

  /** The `TabbedContent` that shows a package: its panes, whether it is
      showing the loading indicator, and whether it has the "content" class
      that makes its panes visible. */
  class PackageInformation {
    var panes: seq<Pane>
    var loading: bool
    var hasContent: bool

    constructor ()
      ensures panes == [] && !loading && !hasContent
    {
      panes := [];
      loading := false;
      hasContent := false;
    }

    /** `show`, with the registry's reply to the lookup of `name` given as
        `status` and `payload`. */
    method Show(name: string, status: int, payload: Members) returns (found: bool)
      modifies this
      ensures Text.AllSpace(name) ==>
        !found && panes == old(panes) && loading == old(loading) && hasContent == old(hasContent)
      ensures !Text.AllSpace(name) ==>
        && found == (status == 200)
        && panes == PanesFor(name, found, FromPypi(status, payload).1)
        && !loading && hasContent
    {
      if Text.AllSpace(name) {
        return false;
      }
      hasContent := true;
      loading := true;
      panes := [];
      var lookup := FromPypi(status, payload);
      found := lookup.0;
      AddPanes(name, found, lookup.1);
      assert [] + PanesFor(name, found, lookup.1) == PanesFor(name, found, lookup.1);
      loading := false;
    }

    /** The rest of `show` once `from_pypi` has answered: the panes for the
        package, or the Unknown pane. */
    method AddPanes(name: string, found: bool, package: Package)
      modifies this
      ensures panes == old(panes) + PanesFor(name, found, package)
      ensures loading == old(loading) && hasContent == old(hasContent)
    {
      if !found {
        panes := panes + [UnknownPane(name)];
        return;
      }
      panes := panes + [DetailsPane(package)];
      if !Text.AllSpace(package.description) {
        panes := panes + [DescriptionPane(package)];
      }
      ghost var shown := if HasDescription(package) then [DetailsPane(package), DescriptionPane(package)] else [DetailsPane(package)];
      assert panes == old(panes) + shown;
      ghost var head := panes;
      assert package.urls[..0] == [];
      assert head + [] == head;
      var i := 0;
      while i < |package.urls|
        invariant 0 <= i <= |package.urls|
        invariant panes == head + ArtifactPanes(package.urls[..i])
        invariant loading == old(loading) && hasContent == old(hasContent)
      {
        ArtifactPanesStep(head, package.urls, i);
        panes := panes + [ArtifactPane(package.urls[i])];
        i := i + 1;
      }
      assert package.urls[..i] == package.urls;
      assert old(panes) + (shown + ArtifactPanes(package.urls)) == (old(panes) + shown) + ArtifactPanes(package.urls);
    }
  }
}
