# pispy, modelled in Dafny

pispy is a terminal application that looks packages up on PyPI. It asks the
registry's JSON API about a package and shows what comes back as rows of
title/value widgets. It also lists the largest projects from the PyPI stats
API. Two revisions of the application exist side by side:

- the newer one under `src/pispy/`, which shows a package as tab panes;
- the older one under `pispy/`, which shows it in one scrolling widget.

This project models the core that both revisions share, and the parts where
they differ:

- **The record normaliser.** `_get`, `PackageURL.from_json` and
  `Package.from_pypi` turn a JSON reply into a `Package` record for each
  revision. They live in modules `Json`, `PackageData` and `LegacyPackageData`.
  The HTTP request becomes two parameters, the status code and the decoded
  payload.
- **The text helpers those functions rely on**, each written out with Python's
  own semantics:
  - `str.strip`, `str.split()`, `re.split("[ ,]+", …)`, `", ".join`,
    `sorted(set(…))` and string comparison (module `Text`);
  - `f"{n:,}"` (module `NumberFormat`);
  - the part of requirement parsing the widgets use: the project name and
    `pkg_resources.safe_name` (module `Requirements`).
- **Row assembly.** The `singledispatch` `maybe_show` and `widgets_for` decide
  which title/value pairs become widgets (module `Display`).
- **The newer widget** (module `PackageInformationWidgets`):
  - the `URL` label with its `looks_urlish` test;
  - the Details, Description, artifact and Unknown panes;
  - the `PackageInformation.show` method, a class whose panes, loading flag
    and "content" class change in place.
- **The older widget** (module `PackageInfoWidgets`):
  - the `Value` and `URL` widgets;
  - `PackageURLData` with its digests;
  - the `PackageInfo.show` method, a class whose mounted children change in
    place.
- **The stats collection** `Packages` (module `Stats`): a stable sort by
  descending size. A missing `"size"` key raises `KeyError` in Python, so the
  model returns `None` for it.

The proofs cover these properties:

- `_get` falls back to its default exactly when a value is missing or null.
- `from_pypi` reports "found" exactly for status 200.
- Each revision reads its own key names ("home_page"/"license" against
  "homepage"/"licence").
- Artifacts keep their order.
- The two keyword splitters cut the text exactly at its maximal separator runs.
- A grouped number reads back as itself.
- `safe_name` keeps the safe characters in order and puts one '-' per run of the others; it is idempotent.
- `parse_requirements` reads the strings one by one, keeping each stripped non-comment line.
- `maybe_show` shows a row exactly when its value is non-empty.
- `widgets_for` emits title/value pairs in order.
- Each pane and row layout holds the right row at the right position.
- The Requires text is empty exactly when there are no requirements.
- Sorting the requirement links orders them the same way as sorting the
  names.
- Each `show` leaves exactly the panes or widgets its inputs determine.
- The stats order is sorted, is a permutation of the input, and is stable.

## Model

| member | source | states |
|---|---|---|
| `Json.LookupSpec` | src/pispy/data/package.py:32 | `dict.get` on a JSON object gives nothing exactly when no member has the key. Otherwise it gives the value of the first member with that key. |
| `PackageData.Get` | src/pispy/data/package.py:15-32 | `_get` returns the default when `via` is absent, when the key is absent under it, or when the stored value is null. Otherwise it returns the stored value unchanged. The result is null only if the default is. The older `_get` (pispy/data/package.py:13-30) is the same function. |
| `PackageData.GetStr` | src/pispy/data/package.py:213-237 | A string field read through `info(…)` is "" when the key is missing or null, and is the stored string when one is stored. |
| `PackageData.GetInt` | src/pispy/data/package.py:92-98 | An integer field (downloads, size) is 0 when missing or null, and the stored integer otherwise. |
| `PackageData.GetBool` | src/pispy/data/package.py:94-101 | A boolean field (has_sig, yanked) is false when missing or null, and the stored boolean otherwise. |
| `PackageData.GetStrList` | src/pispy/data/package.py:216-232 | A list field (classifiers, requires_dist) is [] when missing or null, and the stored strings, in order, otherwise. |
| `PackageData.GetStrDict` | src/pispy/data/package.py:230 | A dict field (project_urls, digests) is empty when missing or null, and the stored pairs, in insertion order, otherwise. |
| `PackageData.Artifacts` | src/pispy/data/package.py:238 | One `PackageURL` per element of "urls", converted by `from_json`, in order; none when "urls" is absent. |
| `PackageData.FromPypi` | src/pispy/data/package.py:209-239 | The found flag is true exactly when the status is 200 (`httpx.codes.OK`), whatever the payload. |
| `PackageData.ArtifactDefaults` | src/pispy/data/package.py:88-103 | Every missing or null artifact key takes its `from_json` default: "" for text, {} for digests, 0 for downloads and size, False for has_sig and yanked. An empty object gives the all-default artifact. |
| `PackageData.ArtifactTextDefaults` | src/pispy/data/package.py:88-103 | The text fields of an artifact that are missing or null are "". |
| `PackageData.ArtifactValueDefaults` | src/pispy/data/package.py:91-101 | Missing or null digests, downloads, has_sig, size and yanked take the defaults {}, 0, False, 0 and False. |
| `PackageData.EmptyArtifact` | src/pispy/data/package.py:88-103 | `from_json({})` is the artifact whose every field is its default. |
| `PackageData.ArtifactCopies` | src/pispy/data/package.py:88-103 | Every artifact key that holds a value of its field's type is copied into the record unchanged, each under its own key name. |
| `PackageData.NoInfoAllDefaults` | src/pispy/data/package.py:209-237 | A payload without "info" gives a package whose every info field is its default. Its keyword list is `[""]`, which is what `re.split` returns for the empty string. |
| `PackageData.KeywordsSplit` | src/pispy/data/package.py:222 | `re.split("[ ,]+", keywords)` gives pieces that hold no space and no comma, and that put together are the text without its separators. A missing or empty keywords value gives `[""]`. |
| `PackageData.KeywordsRebuild` | src/pispy/data/package.py:222 | The keyword text is the keywords with one non-empty run of spaces and commas between each two, so the pieces are cut exactly at the maximal separator runs. |
| `PackageData.InfoKeyNames` | src/pispy/data/package.py:221-226 | The newer revision reads the homepage from "home_page" and the license from "license". |
| `PackageData.UrlsInOrder` | src/pispy/data/package.py:238 | The package's urls are exactly the "urls" array converted element by element, same length, same order. |
| `LegacyPackageData.FromPypi` | pispy/data/package.py:207-239 | The older `from_pypi` also reports "found" exactly for status 200. |
| `LegacyPackageData.KeywordsSplit` | pispy/data/package.py:220 | `keywords.split()` gives non-empty words holding no whitespace. The text is those words with whitespace before, after and between them, non-empty between two words. A missing or blank value gives no words. |
| `LegacyPackageData.InfoKeyNames` | pispy/data/package.py:219-221 | The older revision reads "homepage" and "licence", so those fields are "" when only the newer key names are present. |
| `LegacyPackageData.NoInfoAllDefaults` | pispy/data/package.py:207-238 | Without "info", every field is its default and there are no keywords. |
| `LegacyPackageData.UrlsInOrder` | pispy/data/package.py:236-238 | The urls are the "urls" array converted element by element, in order. |
| `Text.StripEmptyIffBlank` | src/pispy/widgets/package_information.py:368 | `s.strip()` is empty exactly when every character of `s` is whitespace. |
| `Text.SplitRunsFirst` | src/pispy/data/package.py:222 | `re.split` yields an empty first piece exactly when the text is empty or starts with a separator. |
| `Text.SplitRunsNoSeps` | src/pispy/data/package.py:222 | No piece of `re.split("[ ,]+", s)` holds a separator. |
| `Text.SplitRunsInterior` | src/pispy/data/package.py:222 | Only the first and last pieces of `re.split("[ ,]+", s)` can be empty. |
| `Text.SplitRunsConcat` | src/pispy/data/package.py:222 | The pieces, concatenated, are `s` with its separators removed: nothing else is lost or reordered. |
| `Text.SplitRunsRebuild` | src/pispy/data/package.py:222 | `s` is the pieces of `re.split("[ ,]+", s)` with a non-empty run of separators between each two: the split points are the maximal separator runs. |
| `Text.SplitWhitespaceWords` | pispy/data/package.py:220 | `str.split()` gives non-empty words without whitespace whose concatenation is `s` with its whitespace removed. |
| `Text.SplitWhitespaceRebuild` | pispy/data/package.py:220 | `s` is the words of `s.split()` with whitespace gaps before, between and after them, every gap between two words non-empty. |
| `Text.SplitWhitespaceOfBlank` | pispy/data/package.py:220 | `str.split()` of a blank string is empty. |
| `Text.JoinEmptyIff` | src/pispy/widgets/package_information.py:313 | `", ".join` of non-empty strings is empty exactly when there are none. |
| `Text.LessTotal` | src/pispy/widgets/package_information.py:314 | Python's string `<`, which `sorted` uses, is total on distinct strings. `Text.LessIrreflexive`, `Text.LessAsymmetric` and `Text.LessTransitive` complete the strict order. |
| `Text.LessPrefix` | src/pispy/widgets/package_information.py:314-316 | A common prefix does not change how two strings compare. |
| `Text.SortedUnique` | src/pispy/widgets/package_information.py:314-322 | `sorted(set(xs))` is strictly increasing and holds exactly the elements of `xs`. |
| `Text.StrictlySortedUnique` | src/pispy/widgets/package_information.py:314-322 | Two strictly sorted lists with the same elements are equal, so `sorted(set(xs))` is determined by the set alone. |
| `NumberFormat.GroupDigits` | src/pispy/widgets/package_information.py:205 | Digits separated by commas into groups of three from the right, with a comma exactly when `n >= 1000`. |
| `NumberFormat.GroupDigitsValue` | src/pispy/widgets/package_information.py:205 | With the commas removed, the grouped digits read back as `n`, and they start with `0` only when `n` is 0. |
| `NumberFormat.Grouped` | src/pispy/widgets/package_information.py:205 | `f"{n:,}"` is non-empty and starts with '-' exactly when `n` is negative. |
| `NumberFormat.GroupedRoundTrip` | src/pispy/widgets/package_information.py:205 | Reading `f"{n:,}"` back with the commas ignored gives `n`. |
| `Requirements.NamePrefix` | src/pispy/widgets/package_information.py:316-319 | A requirement's name is its longest leading run of name characters (letters, digits, `-`, `_`, `.`). |
| `Requirements.SafeName` | pispy/widgets/package_info.py:292-293 | The result holds only letters, digits, `.` and `-`, holds no `--`, starts with `-` exactly when the name starts with a replaced character, and is empty only for the empty string. |
| `Requirements.SafeNameContent` | pispy/widgets/package_info.py:292-293 | Without its `-` characters the result is the letters, digits and `.` of the name, in order, and it holds exactly one `-` per maximal run of the other characters. |
| `Requirements.SafeNameAppend` | pispy/widgets/package_info.py:292-293 | Cut next to a kept character, the name's safe name is the safe names of the two parts, one after the other. |
| `Requirements.SafeNameOfRun` | pispy/widgets/package_info.py:292-293 | A run made only of replaced characters becomes a single `-`. |
| `Requirements.SafeNameIdempotent` | pispy/widgets/package_info.py:292-293 | Applying `safe_name` twice is the same as applying it once. |
| `Requirements.RequirementLines` | pispy/widgets/package_info.py:293 | `parse_requirements` keeps only lines that are non-empty once stripped and are not comments. |
| `Requirements.RequirementLinesKeep` | pispy/widgets/package_info.py:293 | When no string is blank or a comment, every one is kept, stripped, in order. |
| `Requirements.RequirementLinesSingle` | pispy/widgets/package_info.py:293 | One string yields its stripped text, or nothing when that is empty or starts with `#`. |
| `Requirements.RequirementLinesAppend` | pispy/widgets/package_info.py:293 | The lines of two lists of strings are the lines of the first, then those of the second, so every mixed list is covered string by string. |
| `Requirements.ProjectNames` | pispy/widgets/package_info.py:292-293 | One `project_name` per kept line, in order: the safe name of its leading name. |
| `Display.MaybeShow` | src/pispy/widgets/package_information.py:113-145 | `maybe_show` gives a title and a widget exactly when the value is truthy, and nothing otherwise: `None` and "" give nothing, a non-empty string gives a row. `Record` stands for a `PackageURL`, which is always truthy, so it always gives a row. The older copy (pispy/widgets/package_info.py:100-132) is the same. |
| `Display.ShownFieldsAll` | src/pispy/widgets/package_information.py:149-159 | When every value is shown, `widgets_for` shows every row. |
| `Display.ShownFieldsMember` | src/pispy/widgets/package_information.py:149-159 | Every row whose value is shown appears among the rows `widgets_for` shows. |
| `Display.WidgetsArePairs` | src/pispy/widgets/package_information.py:149-159 | `widgets_for` emits, for the shown rows in order, a `Title` followed by a value widget each. |
| `Display.WidgetsAppend` | src/pispy/widgets/package_information.py:149-159 | The widgets for two lists of rows are the widgets of the first, then those of the second. |
| `Display.WidgetsFor` | pispy/widgets/package_info.py:136-148 | The loop over the rows yields exactly the widgets `widgets_for` specifies, as title/value pairs of the shown rows. |
| `Display.AlternatesAppend` | pispy/widgets/package_info.py:186-214 | Two title/value alternations in a row form one. |
| `Display.SelfLink` | src/pispy/widgets/package_information.py:316 | The click markup embeds the name twice. The first copy can be read back at a fixed offset. |
| `Display.SelfLinkInjective` | src/pispy/widgets/package_information.py:316 | Two names give the same link markup exactly when they are equal. |
| `Display.PairFields` | src/pispy/widgets/package_information.py:306-309 | One row per dictionary item, titled by the key, valued by the value, in insertion order. |
| `Display.YesNo` | src/pispy/widgets/package_information.py:326 | The text is "Yes" exactly when the flag is set, and "No" otherwise. |
| `PackageInformationWidgets.StripControls` | src/pispy/widgets/package_information.py:91 | `urlsplit` drops exactly the leading characters up to and including space: what it drops are all such characters and what it keeps starts with a character above space. |
| `PackageInformationWidgets.StripControlsSuffix` | src/pispy/widgets/package_information.py:91 | What `urlsplit` keeps after stripping is the end of the URL, unchanged. |
| `PackageInformationWidgets.ColonIndex` | src/pispy/widgets/package_information.py:91 | The index of the first ':' (or the length when there is none). |
| `PackageInformationWidgets.Scheme` | src/pispy/widgets/package_information.py:91 | A non-empty scheme starts with a letter, holds only scheme characters, and is followed by ':' in the cleaned URL. |
| `PackageInformationWidgets.SchemeOfPrefix` | src/pispy/widgets/package_information.py:82-91 | A letter followed by scheme characters and a ':' is taken as the scheme, so such a text looks URL-ish. |
| `PackageInformationWidgets.ColonIndexOfPrefix` | src/pispy/widgets/package_information.py:91 | In `s + ":" + t` with no ':' in `s`, the first ':' is at position `|s|`. |
| `PackageInformationWidgets.NoColonNotUrlish` | src/pispy/widgets/package_information.py:82-91 | A text with no ':' never looks URL-ish. |
| `PackageInformationWidgets.UrlText` | src/pispy/widgets/package_information.py:93-101 | The label is the text unchanged exactly when it does not look URL-ish. Otherwise it is the `visit` click markup around it. |
| `PackageInformationWidgets.RequiresTokens` | src/pispy/widgets/package_information.py:315-320 | One `app.lookup` link per requirement, made from that requirement's name, in order. |
| `PackageInformationWidgets.RequiresListSpec` | src/pispy/widgets/package_information.py:313-323 | The Requires list holds every requirement's link and nothing else, without duplicates. |
| `PackageInformationWidgets.RequiresOrderByName` | src/pispy/widgets/package_information.py:314-322 | Sorting the link markup orders two requirements exactly as sorting their names would. |
| `PackageInformationWidgets.NameThenQuote` | src/pispy/widgets/package_information.py:316 | Two distinct names, each followed by the quote the markup puts after it, compare as the names do. |
| `PackageInformationWidgets.RequiresLinkPerName` | src/pispy/widgets/package_information.py:315-316 | Two requirements share a link exactly when they share a name, so the set keeps one link per distinct name. |
| `PackageInformationWidgets.RequiresTextEmpty` | src/pispy/widgets/package_information.py:311-325 | The Requires text is empty, and the row hidden, exactly when `requires_dist` is empty. |
| `PackageInformationWidgets.DetailsLayout` | src/pispy/widgets/package_information.py:287-328 | The Details pane has 21 rows plus one per project URL. The project URLs come after "Project URL" in order, then "Release URL", "Requires" (shown exactly when there are requirements) and an always-shown "Yanked". |
| `PackageInformationWidgets.ArtifactLayout` | src/pispy/widgets/package_information.py:200-213 | The artifact pane has 10 rows plus one per digest. Size (row 4) is grouped with commas, and it and Has Signature are always shown; Comments is the eighth row. |
| `PackageInformationWidgets.ArtifactDigests` | src/pispy/widgets/package_information.py:208-212 | After Comments come the digests, one Value row each titled by its key, in order, then an always-shown Yanked (Yes/No). |
| `PackageInformationWidgets.ArtifactNoDownloads` | src/pispy/widgets/package_information.py:200-213 | No row other than a digest row is titled "Downloads". |
| `PackageInformationWidgets.DescriptionCompose` | src/pispy/widgets/package_information.py:225-231 | The Description pane holds one widget showing the description. It is Markdown exactly when the content type is "text/markdown", and a Value otherwise. |
| `PackageInformationWidgets.ArtifactPanes` | src/pispy/widgets/package_information.py:387-388 | One artifact pane per artifact, in order. |
| `PackageInformationWidgets.HasDescriptionIffStripped` | src/pispy/widgets/package_information.py:385 | The description gets a pane exactly when `description.strip()` is non-empty. |
| `PackageInformationWidgets.PanesFound` | src/pispy/widgets/package_information.py:383-388 | A found package gives Details, then Description when there is one, then one pane per artifact in order. |
| `PackageInformationWidgets.PanesLayout` | src/pispy/widgets/package_information.py:383-390 | A found package gives Details first, then Description exactly when the stripped description is non-empty, then one pane per artifact in order. A package that is not found gives only the Unknown pane. |
| `PackageInformationWidgets.PackageInformation.constructor` | src/pispy/widgets/package_information.py:332-350 | A new widget has no panes, is not loading and has no "content" class. |
| `PackageInformationWidgets.PackageInformation.Show` | src/pispy/widgets/package_information.py:356-395 | A blank name returns False and changes nothing. Otherwise the result is found exactly for status 200, the old panes are replaced by the panes `PanesLayout` describes, loading ends false and the "content" class is set. |
| `PackageInformationWidgets.PackageInformation.AddPanes` | src/pispy/widgets/package_information.py:383-390 | The panes are appended after the existing ones, and the flags are unchanged. |
| `PackageInfoWidgets.ValueText` | pispy/widgets/package_info.py:68-76 | A Value widget shows its value, or "None" when the value is empty, so it never shows an empty text. |
| `PackageInfoWidgets.ValueTextOfNone` | pispy/widgets/package_info.py:74-76 | An empty value and the text "None" look the same, and only the muted "none" class tells them apart. |
| `PackageInfoWidgets.UrlMarkdown` | pispy/widgets/package_info.py:90-96 | A URL is shown as `<url>` (the URL recoverable between the brackets), and an empty one as `*None*`. |
| `PackageInfoWidgets.UrlMarkdownInjective` | pispy/widgets/package_info.py:96 | Two URLs give the same Markdown exactly when they are equal. |
| `PackageInfoWidgets.DigestWidgets` | pispy/widgets/package_info.py:172-184 | Two widgets per digest: its name as a Title, then its value, in order. |
| `PackageInfoWidgets.Digests` | pispy/widgets/package_info.py:182-184 | The loop over the digest items yields exactly those widgets. |
| `PackageInfoWidgets.UrlDataLayout` | pispy/widgets/package_info.py:186-207 | `PackageURLData` yields 22 widgets plus two per digest. It shows the URL, and Size and Downloads grouped with commas. |
| `PackageInfoWidgets.UrlDataDigests` | pispy/widgets/package_info.py:208-214 | The digests come in order after Comments, followed by Yanked (Yes/No) and the yanked reason. |
| `PackageInfoWidgets.UrlDataPairs` | pispy/widgets/package_info.py:186-214 | The widgets alternate strictly, a Title then a value. |
| `PackageInfoWidgets.HeadAlternates` | pispy/widgets/package_info.py:192-209 | The fixed widgets before the digests alternate, a Title then a value. |
| `PackageInfoWidgets.TailAlternates` | pispy/widgets/package_info.py:211-214 | The Yanked widgets alternate, a Title then a value. |
| `PackageInfoWidgets.DigestsAlternate` | pispy/widgets/package_info.py:182-184 | The digest widgets alternate, a Title then a value. |
| `PackageInfoWidgets.RequiresLinks` | pispy/widgets/package_info.py:289-296 | One `screen.lookup` link per parsed requirement's project name, in order, with no sorting and no deduplication. |
| `PackageInfoWidgets.RequiresTextEmpty` | pispy/widgets/package_info.py:289-296 | The Requires text is empty, and the row hidden, exactly when no line survives parsing. |
| `PackageInfoWidgets.DescriptionKind` | pispy/widgets/package_info.py:268-274 | The description row uses Markdown exactly when the content type is "text/markdown", and a Value otherwise. |
| `PackageInfoWidgets.DescriptionRow` | pispy/widgets/package_info.py:268-274 | The ninth row is the description. It is shown exactly when the description is non-empty. |
| `PackageInfoWidgets.InfoLayout` | pispy/widgets/package_info.py:259-298 | The info rows are 22 plus one per project URL. The project URLs come in order after "Project URL", then "Requires" (shown exactly when some requirement parses) and an always-shown "Yanked". |
| `PackageInfoWidgets.ArtifactRows` | pispy/widgets/package_info.py:299-302 | One `PackageURLData` row per artifact, titled by the artifact's filename, in order. |
| `PackageInfoWidgets.ShowLayout` | pispy/widgets/package_info.py:257-303 | The rows are the info rows followed by the artifact rows, in order. |
| `PackageInfoWidgets.ArtifactWidgets` | pispy/widgets/package_info.py:299-302 | Every artifact row is shown, as a Title and a `PackageURLData`, in order. |
| `PackageInfoWidgets.ShowWidgets` | pispy/widgets/package_info.py:257-305 | The mounted widgets are those of the info rows, then two per artifact in order. |
| `PackageInfoWidgets.PackageInfo.constructor` | pispy/widgets/package_info.py:218-236 | A new widget has no children. |
| `PackageInfoWidgets.PackageInfo.Show` | pispy/widgets/package_info.py:238-308 | A blank name changes nothing. Otherwise the old children are removed, and a status of 200 mounts exactly the package's rows. Any other status mounts one "Not found" error label. |
| `Stats.Entries` | pispy/data/stats.py:34 | One `Package(name, size)` per entry, in the input's order. There is no result (Python's `KeyError`) exactly when some entry lacks "size". |
| `Stats.Insert` | pispy/data/stats.py:33-37 | Inserting into the size order adds one element. |
| `Stats.InsertPermutes` | pispy/data/stats.py:33-37 | Inserting adds exactly the new package, as a multiset. |
| `Stats.InsertSorted` | pispy/data/stats.py:33-37 | Inserting into a list sorted by descending size keeps it sorted. |
| `Stats.SortBySize` | pispy/data/stats.py:33-37 | The sort keeps the length. |
| `Stats.SortPermutes` | pispy/data/stats.py:33-37 | The sort is a permutation of its input. |
| `Stats.SortSorted` | pispy/data/stats.py:33-37 | The sort orders by descending size. |
| `Stats.OfSizeAppend` | pispy/data/stats.py:33-37 | The packages of one size in `ps + [p]` are those of `ps`, then `p` when it has that size. |
| `Stats.OfSizeAbove` | pispy/data/stats.py:33-37 | A list sorted by descending size holds nothing larger than its head. |
| `Stats.InsertOfSize` | pispy/data/stats.py:33-37 | Insertion puts a new package after all packages of the same size. |
| `Stats.SortStable` | pispy/data/stats.py:33-37 | Packages of equal size keep their input order (`sorted(…, reverse=True)` is stable). |
| `Stats.FromStatsSpec` | pispy/data/stats.py:27-45 | The collection fails exactly on a missing "size". Otherwise it holds the entries sorted by descending size, as a permutation of the input, with equal sizes in input order. Iteration is the sequence itself. |

## Left out

- The HTTP request, `resp.json()` and its errors are not modelled. `from_pypi` takes the status code and the decoded payload as parameters.
- Textual's `@work` workers, `await`, message posting, tab focus and navigation, CSS, Markdown rendering and `webbrowser` are not modelled. Each `show` runs to completion in one step.
- Panes compose lazily in Textual. The model describes each pane by what it was built with (`Pane`) and what it composes (`Compose`).
- `PackageData.Get`: Python returns whatever value is stored, of any type. The typed getters (`GetStr`, `GetInt`, `GetBool`, `GetStrList`, `GetStrDict`) use the field's default instead when the stored value has the wrong type. The source would carry such a value through or raise later.
- `PackageData.Artifacts`: an "info" that is not an object, or a "urls" that is not an array, is read as empty. Python would raise on them.
- `PackageData.ArtifactFromJson`: an element of "urls" that is not an object, `null` included, gives the all-default artifact. Python raises there, because `_get` calls `.get` on that element.
- `NumberFormat.GroupDigits`: the value the digits stand for, and that they have no leading zero, are stated by the lemma `NumberFormat.GroupDigitsValue`, not by `ensures` clauses of the function. As `ensures` clauses they would be unfolded into every pane layout that shows a size.
- JSON floats are not modelled. Objects are taken as decoded dicts, so their keys are distinct. For a text with a repeated key, `json.loads` keeps the last member, whereas `Json.Lookup` would return the first.
- `PackageInformationWidgets.Scheme` models only what `looks_urlish` needs from `urlparse`:
  - leading characters up to space are stripped and tab, CR and LF are deleted;
  - then the text before the first ':' is the scheme when it starts with a letter and holds only scheme characters.

  The scheme is not lowercased, which does not change whether it is empty.
- `PackageInformationWidgets.Scheme`: `urlsplit` raises `ValueError` on some network locations, and the model reports those texts as URL-ish instead. Examples are unbalanced or invalid brackets, such as "http://[x", and "http://[x]", which `_check_bracketed_host` rejects from Python 3.11.4 on. So are characters that NFKC normalisation turns into URL delimiters (`_checknetloc`).
- `Requirements.RequirementLines`: `parse_requirements` applies `splitlines()` to each string, so "foo\nbar" gives two requirements there. The model treats each string as one line and gives one.
- `Requirements.NamePrefix`: PEP 508 parsing by `packaging`/`pkg_resources` is reduced to the leading run of name characters. Continuation lines, inline comments, extras and markers are not parsed. The errors these libraries raise on malformed specifiers are not modelled.
- `Stats.FromStatsSpec`: `Packages.__iter__` is represented by the sorted sequence itself. `top_by_size`, the stats screen and the HTTP fetch of the stats are not part of this model.
- `Display.MaybeShow`: truthiness is modelled only for the three kinds of value that reach `maybe_show` in either revision: `None`, `str` and `PackageURL`. Other falsy values, such as 0, `False`, [] and {}, are never passed to it.

### Where the two revisions differ

- The newer artifact pane (src/pispy/widgets/package_information.py:201-212) has no Downloads row, while the older `PackageURLData` shows one. `PackageInformationWidgets.ArtifactNoDownloads` proves the newer pane has none.
- Both revisions label the author's address "Email".
- In both revisions, each registered overload of `maybe_show` takes `title: str` as its first annotated parameter, so `register` files both under `str`. The second therefore replaces the first. `singledispatch` dispatches on the title, which is always a string, so every call runs the truthiness overload. The `None` overload and the generic fallback never run.
- The newer revision splits keywords on runs of spaces and commas only. The older one splits on whitespace only, so a comma stays inside a keyword there.
- The newer Requires row sorts and deduplicates the link markup. `PackageInformationWidgets.RequiresOrderByName` shows that this orders the requirements by name. The older one keeps the parsed order and any duplicates.
- The older revision reads "homepage" and "licence", which the PyPI JSON API does not use. Those two fields are therefore "" for real replies.
