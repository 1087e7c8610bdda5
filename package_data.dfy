/** The record normaliser of `src/pispy/data/package.py`: the registry's JSON
    payload becomes a `Package` with one `PackageUrl` per distribution
    artifact, every missing or null field replaced by its default.

    The HTTP request of `Package.from_pypi` is not part of the model: the
    response status and the decoded body are parameters of `FromPypi`. */
module PackageData {
  import opened Json
  import Text

  // ---------------------------------------------------------------------------
  // Records

  /** One downloadable artifact of a release (`PackageURL`). */
  datatype PackageUrl = PackageUrl(
    commentText: string,
    digests: seq<(string, string)>,
    downloads: int,
    filename: string,
    hasSig: bool,
    md5Digest: string,
    packagetype: string,
    pythonVersion: string,
    size: int,
    uploadTimeIso8601: string,
    url: string,
    yanked: bool,
    yankedReason: string
  )

  /** A package on the registry (`Package`). */
  datatype Package = Package(
    author: string,
    authorEmail: string,
    bugtrackUrl: string,
    classifiers: seq<string>,
    description: string,
    descriptionContentType: string,
    docsUrl: string,
    downloadUrl: string,
    homepage: string,
    keywords: seq<string>,
    license: string,
    maintainer: string,
    maintainerEmail: string,
    name: string,
    packageUrl: string,
    platform: string,
    projectUrl: string,
    projectUrls: seq<(string, string)>,
    releaseUrl: string,
    requiresDist: seq<string>,
    requiresPython: string,
    summary: string,
    version: string,
    yanked: bool,
    yankedReason: string,
    urls: seq<PackageUrl>
  )

  // ---------------------------------------------------------------------------
  // Looking values up

  /** `payload.get(via, {})`: the members of the child object `via`. */
  function Child(payload: Members, via: string): Members {
    match Lookup(payload, via)
    case Some(Object(m)) => m
    case _ => []
  }

  /** `_get(payload, via, value, default)`: the value stored under `key` in the
      child object `via`, or `default` when the child or the key is absent or
      the stored value is null. Without a `default` it falls back to "". */
  function Get(payload: Members, via: string, key: string, default: Json := Str("")): (r: Json)
    ensures Lookup(payload, via).None? ==> r == default
    ensures Lookup(Child(payload, via), key).None? ==> r == default
    ensures Lookup(Child(payload, via), key) == Some(Null) ==> r == default
    ensures Lookup(Child(payload, via), key).Some? && Lookup(Child(payload, via), key) != Some(Null)
      ==> r == Lookup(Child(payload, via), key).value
    ensures r == Null ==> default == Null
  {
    match Lookup(Child(payload, via), key)
    case None => default
    case Some(v) => if v == Null then default else v
  }

  /** The strings of a JSON array, if every item is a string. */
  function Strings(items: seq<Json>): (r: Option<seq<string>>)
    ensures r.Some? ==> |r.value| == |items| && forall i :: 0 <= i < |items| ==> items[i] == Str(r.value[i])
    ensures (forall i :: 0 <= i < |items| ==> items[i].Str?) ==> r.Some?
  {
    if items == [] then Some([])
    else match (items[0], Strings(items[1..]))
      case (Str(s), Some(rest)) => Some([s] + rest)
      case _ => None
  }

  /** The members of a JSON object as string pairs, if every value is a string. */
  function StringPairs(m: Members): (r: Option<seq<(string, string)>>)
    ensures r.Some? ==> |r.value| == |m| && forall i :: 0 <= i < |m| ==> m[i] == (r.value[i].0, Str(r.value[i].1))
  {
    if m == [] then Some([])
    else match (m[0].1, StringPairs(m[1..]))
      case (Str(s), Some(rest)) => Some([(m[0].0, s)] + rest)
      case _ => None
  }

  /** A `str` field: `_get(...)` with the default "". */
  function GetStr(payload: Members, via: string, key: string): (r: string)
    ensures Missing(Child(payload, via), key) ==> r == ""
    ensures StrAt(Child(payload, via), key).Some? ==> r == StrAt(Child(payload, via), key).value
  {
    match Get(payload, via, key)
    case Str(s) => s
    case _ => ""
  }

  /** An `int` field: `_get(..., 0)`. */
  function GetInt(payload: Members, via: string, key: string): (r: int)
    ensures Missing(Child(payload, via), key) ==> r == 0
    ensures var v := Lookup(Child(payload, via), key); v.Some? && v.value.Int? ==> r == v.value.i
  {
    match Get(payload, via, key, Int(0))
    case Int(i) => i
    case _ => 0
  }

  /** A `bool` field: `_get(..., False)`. */
  function GetBool(payload: Members, via: string, key: string): (r: bool)
    ensures Missing(Child(payload, via), key) ==> !r
    ensures var v := Lookup(Child(payload, via), key); v.Some? && v.value.Bool? ==> r == v.value.b
  {
    match Get(payload, via, key, Bool(false))
    case Bool(b) => b
    case _ => false
  }

  /** A `list[str]` field: `_get(..., [])`. */
  function GetStrList(payload: Members, via: string, key: string): (r: seq<string>)
    ensures Missing(Child(payload, via), key) ==> r == []
    ensures var v := Lookup(Child(payload, via), key);
      v.Some? && v.value.Array? && Strings(v.value.items).Some? ==> r == Strings(v.value.items).value
  {
    match Get(payload, via, key, Array([]))
    case Array(items) => (match Strings(items) case Some(s) => s case None => [])
    case _ => []
  }

  /** A `dict[str, str]` field: `_get(..., {})`, in the object's own order. */
  function GetStrDict(payload: Members, via: string, key: string): (r: seq<(string, string)>)
    ensures Missing(Child(payload, via), key) ==> r == []
    ensures var v := Lookup(Child(payload, via), key);
      v.Some? && v.value.Object? && StringPairs(v.value.members).Some? ==> r == StringPairs(v.value.members).value
  {
    match Get(payload, via, key, Object([]))
    case Object(m) => (match StringPairs(m) case Some(d) => d case None => [])
    case _ => []
  }

  // ---------------------------------------------------------------------------
  // Building the records

  /** `PackageURL.from_json(data)`: the artifact record of one element of the
      payload's `urls` list. `data` is looked up as the child "url" of the
      one-member object {"url": data}, as `PackageURL.from_json` does. */
  function ArtifactFromJson(data: Json): PackageUrl {
    var p := [("url", data)];
    PackageUrl(
      commentText := GetStr(p, "url", "comment_text"),
      digests := GetStrDict(p, "url", "digests"),
      downloads := GetInt(p, "url", "downloads"),
      filename := GetStr(p, "url", "filename"),
      hasSig := GetBool(p, "url", "has_sig"),
      md5Digest := GetStr(p, "url", "md5_digest"),
      packagetype := GetStr(p, "url", "packagetype"),
      pythonVersion := GetStr(p, "url", "python_version"),
      size := GetInt(p, "url", "size"),
      uploadTimeIso8601 := GetStr(p, "url", "upload_time_iso_8601"),
      url := GetStr(p, "url", "url"),
      yanked := GetBool(p, "url", "yanked"),
      yankedReason := GetStr(p, "url", "yanked_reason")
    )
  }

  /** The items of the payload's `urls` list (`data.get("urls", [])`). */
  function UrlItems(payload: Members): seq<Json> {
    match Lookup(payload, "urls")
    case Some(Array(items)) => items
    case _ => []
  }

  /** `[PackageURL.from_json(url) for url in data.get("urls", [])]`. */
  function Artifacts(payload: Members): (r: seq<PackageUrl>)
    ensures |r| == |UrlItems(payload)|
    ensures forall i :: 0 <= i < |r| ==> r[i] == ArtifactFromJson(UrlItems(payload)[i])
    ensures Lookup(payload, "urls").None? ==> r == []
  {
    var items := UrlItems(payload);
    seq(|items|, i requires 0 <= i < |items| => ArtifactFromJson(items[i]))
  }

  /** The separators of the keyword list: `re.split("[ ,]+", ...)`. */
  const KeywordSeparators: set<char> := {' ', ','}

  /** `Package.from_pypi` after the request: the found flag and the record.
      The flag holds exactly when the registry answered 200 (OK). */
  function FromPypi(status: int, payload: Members): (r: (bool, Package))
    ensures r.0 <==> status == 200
  {
    (status == 200, Package(
      author := GetStr(payload, "info", "author"),
      authorEmail := GetStr(payload, "info", "author_email"),
      bugtrackUrl := GetStr(payload, "info", "bugtrack_url"),
      classifiers := GetStrList(payload, "info", "classifiers"),
      description := GetStr(payload, "info", "description"),
      descriptionContentType := GetStr(payload, "info", "description_content_type"),
      docsUrl := GetStr(payload, "info", "docs_url"),
      downloadUrl := GetStr(payload, "info", "download_url"),
      homepage := GetStr(payload, "info", "home_page"),
      keywords := Text.SplitRuns(GetStr(payload, "info", "keywords"), KeywordSeparators),
      license := GetStr(payload, "info", "license"),
      maintainer := GetStr(payload, "info", "maintainer"),
      maintainerEmail := GetStr(payload, "info", "maintainer_email"),
      name := GetStr(payload, "info", "name"),
      packageUrl := GetStr(payload, "info", "package_url"),
      platform := GetStr(payload, "info", "platform"),
      projectUrl := GetStr(payload, "info", "project_url"),
      projectUrls := GetStrDict(payload, "info", "project_urls"),
      releaseUrl := GetStr(payload, "info", "release_url"),
      requiresDist := GetStrList(payload, "info", "requires_dist"),
      requiresPython := GetStr(payload, "info", "requires_python"),
      summary := GetStr(payload, "info", "summary"),
      version := GetStr(payload, "info", "version"),
      yanked := GetBool(payload, "info", "yanked"),
      yankedReason := GetStr(payload, "info", "yanked_reason"),
      urls := Artifacts(payload)
    ))
  }

  // ---------------------------------------------------------------------------
  // Properties

  /** The artifact record with every field at its default. */
  const DefaultArtifact := PackageUrl("", [], 0, "", false, "", "", "", 0, "", "", false, "")

  /** The text fields of an artifact that are absent or null are "". */
  lemma {:induction false} ArtifactTextDefaults(m: Members)
    ensures var a := ArtifactFromJson(Object(m));
      && (Missing(m, "comment_text") ==> a.commentText == "")
      && (Missing(m, "filename") ==> a.filename == "")
      && (Missing(m, "md5_digest") ==> a.md5Digest == "")
      && (Missing(m, "packagetype") ==> a.packagetype == "")
      && (Missing(m, "python_version") ==> a.pythonVersion == "")
      && (Missing(m, "upload_time_iso_8601") ==> a.uploadTimeIso8601 == "")
      && (Missing(m, "url") ==> a.url == "")
      && (Missing(m, "yanked_reason") ==> a.yankedReason == "")
  {
    assert Child([("url", Object(m))], "url") == m;
  }

  /** The other fields of an artifact that are absent or null take the
      default `from_json` names for them. */
  lemma {:induction false} ArtifactValueDefaults(m: Members)
    ensures var a := ArtifactFromJson(Object(m));
      && (Missing(m, "digests") ==> a.digests == [])
      && (Missing(m, "downloads") ==> a.downloads == 0)
      && (Missing(m, "has_sig") ==> !a.hasSig)
      && (Missing(m, "size") ==> a.size == 0)
      && (Missing(m, "yanked") ==> !a.yanked)
  {
    assert Child([("url", Object(m))], "url") == m;
  }

  /** An empty object gives the all-default artifact. */
  lemma {:induction false} EmptyArtifact()
    ensures ArtifactFromJson(Object([])) == DefaultArtifact
  {
    assert Child([("url", Object([]))], "url") == [];
  }

  /** Every artifact field that is absent or null takes its default: "" for
      strings, {} for `digests`, 0 for `downloads` and `size`, False for
      `has_sig` and `yanked`. */
  lemma {:induction false} ArtifactDefaults(m: Members)
    ensures var a := ArtifactFromJson(Object(m));
      && (Missing(m, "comment_text") ==> a.commentText == "")
      && (Missing(m, "digests") ==> a.digests == [])
      && (Missing(m, "downloads") ==> a.downloads == 0)
      && (Missing(m, "filename") ==> a.filename == "")
      && (Missing(m, "has_sig") ==> !a.hasSig)
      && (Missing(m, "md5_digest") ==> a.md5Digest == "")
      && (Missing(m, "packagetype") ==> a.packagetype == "")
      && (Missing(m, "python_version") ==> a.pythonVersion == "")
      && (Missing(m, "size") ==> a.size == 0)
      && (Missing(m, "upload_time_iso_8601") ==> a.uploadTimeIso8601 == "")
      && (Missing(m, "url") ==> a.url == "")
      && (Missing(m, "yanked") ==> !a.yanked)
      && (Missing(m, "yanked_reason") ==> a.yankedReason == "")
    ensures ArtifactFromJson(Object([])) == DefaultArtifact
  {
    ArtifactTextDefaults(m);
    ArtifactValueDefaults(m);
    EmptyArtifact();
  }

  /** Every artifact field that is present, non-null and of its type is copied
      through unchanged. */
  lemma {:induction false} ArtifactCopies(m: Members)
    ensures var a := ArtifactFromJson(Object(m));
      && (StrAt(m, "comment_text").Some? ==> a.commentText == StrAt(m, "comment_text").value)
      && (StrAt(m, "filename").Some? ==> a.filename == StrAt(m, "filename").value)
      && (StrAt(m, "md5_digest").Some? ==> a.md5Digest == StrAt(m, "md5_digest").value)
      && (StrAt(m, "packagetype").Some? ==> a.packagetype == StrAt(m, "packagetype").value)
      && (StrAt(m, "python_version").Some? ==> a.pythonVersion == StrAt(m, "python_version").value)
      && (StrAt(m, "upload_time_iso_8601").Some? ==> a.uploadTimeIso8601 == StrAt(m, "upload_time_iso_8601").value)
      && (StrAt(m, "url").Some? ==> a.url == StrAt(m, "url").value)
      && (StrAt(m, "yanked_reason").Some? ==> a.yankedReason == StrAt(m, "yanked_reason").value)
    ensures var a := ArtifactFromJson(Object(m));
      && (Lookup(m, "downloads").Some? && Lookup(m, "downloads").value.Int? ==> a.downloads == Lookup(m, "downloads").value.i)
      && (Lookup(m, "size").Some? && Lookup(m, "size").value.Int? ==> a.size == Lookup(m, "size").value.i)
      && (Lookup(m, "has_sig").Some? && Lookup(m, "has_sig").value.Bool? ==> a.hasSig == Lookup(m, "has_sig").value.b)
      && (Lookup(m, "yanked").Some? && Lookup(m, "yanked").value.Bool? ==> a.yanked == Lookup(m, "yanked").value.b)
    ensures var a := ArtifactFromJson(Object(m)); var d := Lookup(m, "digests");
      d.Some? && d.value.Object? && StringPairs(d.value.members).Some? ==> a.digests == StringPairs(d.value.members).value
  {
    assert Child([("url", Object(m))], "url") == m;
  }

  /** A payload without an "info" object (the body of a 404 answer, say)
      yields a package whose every info field is at its default. */
  lemma {:induction false} NoInfoAllDefaults(status: int, payload: Members)
    requires Lookup(payload, "info").None?
    ensures FromPypi(status, payload).1 == Package(
      "", "", "", [], "", "", "", "", "", [""], "", "", "", "", "", "", "", [], "", [], "", "", "", false, "",
      Artifacts(payload))
  {
  }

  /** The keywords are the keyword string split on runs of spaces and commas:
      no keyword holds a space or a comma, nothing but separators is lost, and
      an absent or empty keyword string gives [""]. */
  lemma {:induction false} KeywordsSplit(status: int, payload: Members)
    ensures var ks := FromPypi(status, payload).1.keywords;
      && |ks| >= 1
      && (forall i, j :: 0 <= i < |ks| && 0 <= j < |ks[i]| ==> ks[i][j] != ' ' && ks[i][j] != ',')
      && Text.Concat(ks) == Text.Without(GetStr(payload, "info", "keywords"), KeywordSeparators)
    ensures Missing(Child(payload, "info"), "keywords") || StrAt(Child(payload, "info"), "keywords") == Some("")
      ==> FromPypi(status, payload).1.keywords == [""]
  {
    var s := GetStr(payload, "info", "keywords");
    Text.SplitRunsNoSeps(s, KeywordSeparators);
    Text.SplitRunsConcat(s, KeywordSeparators);
  }

  /** Where the keyword string is cut: it is the keywords with a non-empty
      run of spaces and commas between each two. */
  lemma {:induction false} KeywordsRebuild(status: int, payload: Members)
    ensures var ks := FromPypi(status, payload).1.keywords;
      var s := GetStr(payload, "info", "keywords");
      var runs := Text.Runs(s, KeywordSeparators);
      && |ks| == |runs| + 1
      && (forall i :: 0 <= i < |runs| ==> runs[i] != [] && Text.AllIn(runs[i], KeywordSeparators))
      && s == Text.Interleave(ks, runs)
  {
    var s := GetStr(payload, "info", "keywords");
    assert FromPypi(status, payload).1.keywords == Text.SplitRuns(s, KeywordSeparators);
    Text.SplitRunsRebuild(s, KeywordSeparators);
  }

  /** `homepage` is read from "home_page" and `license` from "license". */
  lemma {:induction false} InfoKeyNames(status: int, payload: Members)
    ensures var p := FromPypi(status, payload).1; var info := Child(payload, "info");
      && (StrAt(info, "home_page").Some? ==> p.homepage == StrAt(info, "home_page").value)
      && (StrAt(info, "license").Some? ==> p.license == StrAt(info, "license").value)
      && (StrAt(info, "name").Some? ==> p.name == StrAt(info, "name").value)
  {
  }

  /** `urls` has one record per element of the payload's "urls" list, in the
      same order. */
  lemma {:induction false} UrlsInOrder(status: int, payload: Members, items: seq<Json>)
    requires Lookup(payload, "urls") == Some(Array(items))
    ensures var urls := FromPypi(status, payload).1.urls;
      |urls| == |items| && forall i :: 0 <= i < |items| ==> urls[i] == ArtifactFromJson(items[i])
  {
  }
}
