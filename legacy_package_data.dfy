/** The record normaliser of the older revision, `pispy/data/package.py`.

    Its `_get` and `PackageURL.from_json` are the same code as the newer
    revision's and are shared with `PackageData`; `Package.from_pypi` differs
    in three places: the keyword string is split on whitespace, the licence is
    read from the key "licence" and the homepage from the key "homepage". */
module LegacyPackageData {
  import opened Json
  import Text
  import opened PackageData

  /** `Package.from_pypi` of the older revision, after the request. */
  function FromPypi(status: int, payload: Members): (r: (bool, Package))
    ensures r.0 <==> status == 200
  {
    (status == 200, Package(
      author := GetStr(payload, "info", "author"),
      authorEmail := GetStr(payload, "info", "author_email"),
      bugtrackUrl := GetStr(payload, "info", "bugtrack_url"),
      classifiers := GetStrList(payload, "info", "classifiers"),
      description := GetStr(payload, "info", "description"),
      descriptionContentType := GetStr(payload, "info", "description_content_type"),
      docsUrl := GetStr(payload, "info", "docs_url"),
      downloadUrl := GetStr(payload, "info", "download_url"),
      homepage := GetStr(payload, "info", "homepage"),
      keywords := Text.SplitWhitespace(GetStr(payload, "info", "keywords")),
      license := GetStr(payload, "info", "licence"),
      maintainer := GetStr(payload, "info", "maintainer"),
      maintainerEmail := GetStr(payload, "info", "maintainer_email"),
      name := GetStr(payload, "info", "name"),
      packageUrl := GetStr(payload, "info", "package_url"),
      platform := GetStr(payload, "info", "platform"),
      projectUrl := GetStr(payload, "info", "project_url"),
      projectUrls := GetStrDict(payload, "info", "project_urls"),
      releaseUrl := GetStr(payload, "info", "release_url"),
      requiresDist := GetStrList(payload, "info", "requires_dist"),
      requiresPython := GetStr(payload, "info", "requires_python"),
      summary := GetStr(payload, "info", "summary"),
      version := GetStr(payload, "info", "version"),
      yanked := GetBool(payload, "info", "yanked"),
      yankedReason := GetStr(payload, "info", "yanked_reason"),
      urls := Artifacts(payload)
    ))
  }

  /** The keywords are the whitespace-separated words of the keyword string:
      none is empty, none holds whitespace, the keyword string is the
      keywords with whitespace around them and a non-empty run of it between
      each two, and an absent or blank keyword string gives no keywords at
      all. */
  lemma {:induction false} KeywordsSplit(status: int, payload: Members)
    ensures var ks := FromPypi(status, payload).1.keywords;
      && (forall i :: 0 <= i < |ks| ==> ks[i] != "")
      && (forall i, j :: 0 <= i < |ks| && 0 <= j < |ks[i]| ==> !Text.IsSpace(ks[i][j]))
      && Text.Concat(ks) == Text.Without(GetStr(payload, "info", "keywords"), Text.Whitespace())
    ensures var ks := FromPypi(status, payload).1.keywords;
      var s := GetStr(payload, "info", "keywords");
      var gaps := Text.Gaps(s, Text.Whitespace());
      && |gaps| == |ks| + 1
      && (forall i :: 0 <= i < |gaps| ==> Text.AllSpace(gaps[i]))
      && (forall i :: 0 < i < |gaps| - 1 ==> gaps[i] != [])
      && s == Text.Interleave(gaps, ks)
    ensures Missing(Child(payload, "info"), "keywords") ==> FromPypi(status, payload).1.keywords == []
    ensures var s := StrAt(Child(payload, "info"), "keywords");
      s.Some? && Text.AllSpace(s.value) ==> FromPypi(status, payload).1.keywords == []
  {
    var s := GetStr(payload, "info", "keywords");
    assert FromPypi(status, payload).1.keywords == Text.SplitWhitespace(s);
    Text.SplitWhitespaceWords(s);
    Text.SplitWhitespaceRebuild(s);
    if Missing(Child(payload, "info"), "keywords") {
      Text.SplitWhitespaceOfBlank(s);
    }
    if StrAt(Child(payload, "info"), "keywords").Some? && Text.AllSpace(s) {
      Text.SplitWhitespaceOfBlank(s);
    }
  }

  /** The licence is read from the key "licence", so a payload that spells
      it "license" (as the registry does) and has no "licence" key gives "";
      the homepage is read from "homepage", so a payload with only
      "home_page" gives "". */
  lemma {:induction false} InfoKeyNames(status: int, payload: Members)
    ensures var p := FromPypi(status, payload).1; var info := Child(payload, "info");
      && (StrAt(info, "licence").Some? ==> p.license == StrAt(info, "licence").value)
      && (Lookup(info, "licence").None? ==> p.license == "")
      && (StrAt(info, "homepage").Some? ==> p.homepage == StrAt(info, "homepage").value)
      && (Lookup(info, "homepage").None? ==> p.homepage == "")
  {
  }

  /** A payload without an "info" object yields a package whose every info
      field is at its default. */
  lemma {:induction false} NoInfoAllDefaults(status: int, payload: Members)
    requires Lookup(payload, "info").None?
    ensures FromPypi(status, payload).1 == Package(
      "", "", "", [], "", "", "", "", "", [], "", "", "", "", "", "", "", [], "", [], "", "", "", false, "",
      Artifacts(payload))
  {
    Text.SplitWhitespaceOfBlank("");
  }

  /** `urls` has one record per element of the payload's "urls" list, in the
      same order, and is empty when the key is absent. */
  lemma {:induction false} UrlsInOrder(status: int, payload: Members, items: seq<Json>)
    requires Lookup(payload, "urls") == Some(Array(items))
    ensures var urls := FromPypi(status, payload).1.urls;
      |urls| == |items| && forall i :: 0 <= i < |items| ==> urls[i] == ArtifactFromJson(items[i])
  {
  }
}
