/** The little the widgets need from PEP 508 dependency specifiers: the
    distribution name a specifier starts with.

    Both revisions hand the strings of `requires_dist` to a requirement
    parser and keep only the name: the newer one `Requirement(s).name` from
    `packaging`, the older one `project_name` of each requirement that
    `pkg_resources.parse_requirements` yields. The model reads the name as
    the leading run of name characters after any leading whitespace. */
module Requirements {
  import Text

  predicate IsAsciiAlnum(c: char) {
    'a' <= c <= 'z' || 'A' <= c <= 'Z' || '0' <= c <= '9'
  }

  /** The characters a PEP 508 distribution name is made of. */
  predicate IsNameChar(c: char) {
    IsAsciiAlnum(c) || c == '.' || c == '_' || c == '-'
  }

  /** The longest prefix of `s` made of name characters. */
  function NamePrefix(s: string): (r: string)
    ensures |r| <= |s| && r == s[..|r|]
    ensures forall i :: 0 <= i < |r| ==> IsNameChar(r[i])
    ensures |r| < |s| ==> !IsNameChar(s[|r|])
  {
    if s == [] || !IsNameChar(s[0]) then [] else [s[0]] + NamePrefix(s[1..])
  }

  /** The distribution name of a requirement specifier, as written. */
  function Name(requirement: string): string {
    NamePrefix(Text.StripLeft(requirement))
  }

  // ---------------------------------------------------------------------------
  // pkg_resources

  /** The characters `safe_name` keeps. */
  predicate IsSafeChar(c: char) {
    IsAsciiAlnum(c) || c == '.'
  }

  /** `s` without its leading run of characters that `safe_name` replaces. */
  function DropUnsafe(s: string): (r: string)
    ensures |r| <= |s|
    ensures r != [] ==> IsSafeChar(r[0])
  {
    if s == [] || IsSafeChar(s[0]) then s else DropUnsafe(s[1..])
  }

  /** `pkg_resources.safe_name`: every run of characters other than ASCII
      letters, digits and '.' becomes a single '-'. */
  function SafeName(s: string): (r: string)
    ensures forall i :: 0 <= i < |r| ==> IsSafeChar(r[i]) || r[i] == '-'
    ensures forall i :: 0 <= i < |r| - 1 ==> !(r[i] == '-' && r[i + 1] == '-')
    ensures r != [] && r[0] == '-' <==> s != [] && !IsSafeChar(s[0])
    ensures r == [] <==> s == []
    decreases |s|
  {
    if s == [] then []
    else if IsSafeChar(s[0]) then [s[0]] + SafeName(s[1..])
    else "-" + SafeName(DropUnsafe(s))
  }

  /** A string that is already a safe name is left alone. */
  lemma {:induction false} SafeNameFixed(r: string)
    requires forall i :: 0 <= i < |r| ==> IsSafeChar(r[i]) || r[i] == '-'
    requires forall i :: 0 <= i < |r| - 1 ==> !(r[i] == '-' && r[i + 1] == '-')
    ensures SafeName(r) == r
    decreases |r|
  {
    if r != [] {
      if IsSafeChar(r[0]) {
        SafeNameFixed(r[1..]);
      } else {
        assert r[1..] == [] || IsSafeChar(r[1]);
        assert DropUnsafe(r) == r[1..];
        SafeNameFixed(r[1..]);
      }
    }
  }

  /** `safe_name` is idempotent. */
  lemma SafeNameIdempotent(s: string)
    ensures SafeName(SafeName(s)) == SafeName(s)
  {
    SafeNameFixed(SafeName(s));
  }

  /** The characters of `s` that `safe_name` keeps, in order. */
  function SafeChars(s: string): (r: string)
    ensures |r| <= |s|
  {
    if s == [] then [] else (if IsSafeChar(s[0]) then [s[0]] else []) + SafeChars(s[1..])
  }

  /** The number of maximal runs of characters that `safe_name` replaces:
      the replaced characters that do not follow another replaced one.
      `afterUnsafe` says whether the character before `s` was replaced. */
  function UnsafeRuns(s: string, afterUnsafe: bool): nat {
    if s == [] then 0
    else (if !IsSafeChar(s[0]) && !afterUnsafe then 1 else 0) + UnsafeRuns(s[1..], !IsSafeChar(s[0]))
  }

  lemma {:induction false} SafeCharsDropUnsafe(s: string)
    ensures SafeChars(DropUnsafe(s)) == SafeChars(s)
  {
    if s != [] && !IsSafeChar(s[0]) {
      SafeCharsDropUnsafe(s[1..]);
    }
  }

  lemma {:induction false} UnsafeRunsDropUnsafe(s: string)
    ensures UnsafeRuns(s, true) == UnsafeRuns(DropUnsafe(s), false)
  {
    if s != [] && !IsSafeChar(s[0]) {
      UnsafeRunsDropUnsafe(s[1..]);
    }
  }

  /** `safe_name` keeps every letter, digit and '.' of `s`, in order, and
      adds only '-' characters: exactly one for each maximal run of the
      characters it replaces. */
  lemma {:induction false} SafeNameContent(s: string)
    ensures Text.Without(SafeName(s), {'-'}) == SafeChars(s)
    ensures multiset(SafeName(s))['-'] == UnsafeRuns(s, false)
    decreases |s|
  {
    if s != [] {
      var r := SafeName(s);
      if IsSafeChar(s[0]) {
        SafeNameContent(s[1..]);
        assert r[1..] == SafeName(s[1..]);
      } else {
        var d := DropUnsafe(s);
        SafeNameContent(d);
        assert r[1..] == SafeName(d);
        SafeCharsDropUnsafe(s[1..]);
        UnsafeRunsDropUnsafe(s[1..]);
      }
    }
  }

  lemma {:induction false} DropUnsafeAppend(s: string, t: string)
    requires DropUnsafe(s) != []
    ensures DropUnsafe(s + t) == DropUnsafe(s) + t
    ensures DropUnsafe(s)[|DropUnsafe(s)| - 1] == s[|s| - 1]
  {
    if !IsSafeChar(s[0]) {
      assert (s + t)[1..] == s[1..] + t;
      DropUnsafeAppend(s[1..], t);
    }
  }

  lemma {:induction false} DropUnsafeAll(s: string, t: string)
    requires DropUnsafe(s) == []
    ensures DropUnsafe(s + t) == DropUnsafe(t)
    ensures s != [] ==> !IsSafeChar(s[|s| - 1])
  {
    if s != [] {
      assert (s + t)[1..] == s[1..] + t;
      DropUnsafeAll(s[1..], t);
    } else {
      assert s + t == t;
    }
  }

  /** Cutting a string next to a kept character cuts its safe name in the
      same place. Every string is its maximal runs one after another, so
      this, `SafeNameOfRun` and a kept character giving itself determine
      `safe_name` completely. */
  lemma {:induction false} SafeNameAppend(s: string, t: string)
    requires s == [] || t == [] || IsSafeChar(s[|s| - 1]) || IsSafeChar(t[0])
    ensures SafeName(s + t) == SafeName(s) + SafeName(t)
    decreases |s|
  {
    if s == [] {
      assert s + t == t;
    } else if t == [] {
      assert s + t == s;
    } else if IsSafeChar(s[0]) {
      assert (s + t)[1..] == s[1..] + t;
      SafeNameAppend(s[1..], t);
    } else {
      var d := DropUnsafe(s);
      if d == [] {
        DropUnsafeAll(s, t);
      } else {
        DropUnsafeAppend(s, t);
        SafeNameAppend(d, t);
      }
    }
  }

  /** A maximal run of replaced characters becomes one '-'. */
  lemma {:induction false} SafeNameOfRun(s: string)
    requires s != [] && forall i :: 0 <= i < |s| ==> !IsSafeChar(s[i])
    ensures SafeName(s) == "-"
  {
    assert DropUnsafe(s) == [] by {
      NoSafeDropsAll(s);
    }
  }

  lemma {:induction false} NoSafeDropsAll(s: string)
    requires forall i :: 0 <= i < |s| ==> !IsSafeChar(s[i])
    ensures DropUnsafe(s) == []
  {
    if s != [] {
      NoSafeDropsAll(s[1..]);
    }
  }

  /** The lines `parse_requirements` reads requirements from: each string
      stripped, with blank lines and `#` comment lines skipped. */
  function RequirementLines(requirements: seq<string>): (r: seq<string>)
    ensures |r| <= |requirements|
    ensures forall i :: 0 <= i < |r| ==> r[i] != "" && r[i][0] != '#'
  {
    if requirements == [] then []
    else
      var line := Text.Strip(requirements[0]);
      var rest := RequirementLines(requirements[1..]);
      if line != "" && line[0] != '#' then [line] + rest else rest
  }

  /** Every string of `requires_dist` that is neither blank nor a comment
      yields exactly one requirement, in order. */
  lemma {:induction false} RequirementLinesKeep(requirements: seq<string>)
    requires forall i :: 0 <= i < |requirements| ==>
      Text.Strip(requirements[i]) != "" && Text.Strip(requirements[i])[0] != '#'
    ensures |RequirementLines(requirements)| == |requirements|
    ensures forall i :: 0 <= i < |requirements| ==> RequirementLines(requirements)[i] == Text.Strip(requirements[i])
  {
    if requirements != [] {
      RequirementLinesKeep(requirements[1..]);
    }
  }

  /** One string of `requires_dist` yields its stripped text, unless that
      is blank or a comment, when it yields nothing. */
  lemma RequirementLinesSingle(x: string)
    ensures RequirementLines([x]) ==
      (if Text.Strip(x) != "" && Text.Strip(x)[0] != '#' then [Text.Strip(x)] else [])
  {
    assert [x][1..] == [];
  }

  /** The strings of `requires_dist` are read one after another: the lines of
      a concatenation are the lines of each part, in order. */
  lemma {:induction false} RequirementLinesAppend(a: seq<string>, b: seq<string>)
    ensures RequirementLines(a + b) == RequirementLines(a) + RequirementLines(b)
  {
    if a == [] {
      assert a + b == b;
    } else {
      assert (a + b)[1..] == a[1..] + b;
      RequirementLinesAppend(a[1..], b);
    }
  }

  /** `project_name` of each requirement `parse_requirements` yields. */
  function ProjectNames(requirements: seq<string>): (r: seq<string>)
    ensures |r| == |RequirementLines(requirements)|
    ensures forall i :: 0 <= i < |r| ==> r[i] == SafeName(Name(RequirementLines(requirements)[i]))
  {
    var lines := RequirementLines(requirements);
    seq(|lines|, i requires 0 <= i < |lines| => SafeName(Name(lines[i])))
  }
}
