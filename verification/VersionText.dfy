// Reading and writing versions (Parse and String in internal/semver/version.go).
module VersionText {
  import opened Wrappers
  import opened Text
  import opened Decimal
  import opened Semver

  // Leading zeroes are refused in the version core.
  function ParseNumeric(s: string): Option<uint64> {
    if s == "" || LeadingZero(s) then None else ParseUint(s)
  }

  function ParseCore(s: string, pre: seq<string>, build: string): Option<Version> {
    var parts := Split(s, '.');
    if |parts| != 3 then None
    else match (ParseNumeric(parts[0]), ParseNumeric(parts[1]), ParseNumeric(parts[2]))
      case (Some(major), Some(minor), Some(patch)) => Some(Version(major, minor, patch, pre, build))
      case _ => None
  }

  function ParsePre(s: string, build: string): Option<Version> {
    var i := IndexOf(s, '-');
    if i < 0 then ParseCore(s, [], build)
    else
      var pre := Split(s[i + 1..], '.');
      if "" in pre then None else ParseCore(s[..i], pre, build)
  }

  // Tolerates surrounding space, then one leading "v", then one leading "=".
  function Parse(text: string): Option<Version> {
    var s := TrimPrefix(TrimPrefix(TrimSpace(text), 'v'), '=');
    if s == "" then None
    else
      var i := IndexOf(s, '+');
      if i < 0 then ParsePre(s, "") else ParsePre(s[..i], s[i + 1..])
  }

  function CoreText(v: Version): string {
    Join([FormatUint(v.major), FormatUint(v.minor), FormatUint(v.patch)], '.')
  }

  function PreText(v: Version): string {
    if v.pre == [] then CoreText(v) else CoreText(v) + ['-'] + Join(v.pre, '.')
  }

  function Written(v: Version): string {
    if v.build == "" then PreText(v) else PreText(v) + ['+'] + v.build
  }

  // A version that could have been written down: no empty identifier, no separator inside one, and
  // nothing at the end that trimming would take.
  predicate Writable(v: Version) {
    && (forall x :: x in v.pre ==> x != "" && '.' !in x && '+' !in x)
    && !IsSpace(Written(v)[|Written(v)| - 1])
  }

  lemma CoreTextIsPlain(v: Version)
    ensures var s := CoreText(v);
      s != "" && IsDigit(s[0]) && '+' !in s && '-' !in s && Split(s, '.') == [FormatUint(v.major), FormatUint(v.minor), FormatUint(v.patch)]
  {
    FormatIsNumeral(v.major);
    FormatIsNumeral(v.minor);
    FormatIsNumeral(v.patch);
    var parts := [FormatUint(v.major), FormatUint(v.minor), FormatUint(v.patch)];
    forall p | p in parts ensures '.' !in p && '+' !in p && '-' !in p {
      assert AllDigits(p);
    }
    SplitUndoesJoin(parts, '.');
    JoinAvoids(parts, '.', '+');
    JoinAvoids(parts, '.', '-');
    assert CoreText(v)[0] == FormatUint(v.major)[0];
  }

  lemma CoreRoundTrip(v: Version)
    ensures ParseCore(CoreText(v), v.pre, v.build) == Some(v)
  {
    CoreTextIsPlain(v);
    FormatIsNumeral(v.major);
    FormatIsNumeral(v.minor);
    FormatIsNumeral(v.patch);
  }

  lemma PreRoundTrip(v: Version)
    requires forall x :: x in v.pre ==> x != "" && '.' !in x
    ensures ParsePre(PreText(v), v.build) == Some(v)
  {
    CoreTextIsPlain(v);
    CoreRoundTrip(v);
    if v.pre == [] {
      IndexOfFirst(CoreText(v), '-', []);
    } else {
      IndexOfFirst(CoreText(v), '-', Join(v.pre, '.'));
      SplitUndoesJoin(v.pre, '.');
      assert PreText(v)[..|CoreText(v)|] == CoreText(v);
      assert PreText(v)[|CoreText(v)| + 1..] == Join(v.pre, '.');
    }
  }

  lemma NothingToTrim(s: string)
    requires s != "" && IsDigit(s[0]) && !IsSpace(s[|s| - 1])
    ensures TrimPrefix(TrimPrefix(TrimSpace(s), 'v'), '=') == s
  {
  }

  lemma ReadsWithoutBuild(text: string)
    requires text != "" && IsDigit(text[0]) && !IsSpace(text[|text| - 1]) && '+' !in text
    ensures Parse(text) == ParsePre(text, "")
  {
    NothingToTrim(text);
    IndexOfFirst(text, '+', []);
  }

  lemma ReadsWithBuild(text: string, build: string)
    requires text != "" && IsDigit(text[0]) && '+' !in text && build != "" && !IsSpace(build[|build| - 1])
    ensures Parse(text + ['+'] + build) == ParsePre(text, build)
  {
    var s := text + ['+'] + build;
    assert s[0] == text[0] && s[|s| - 1] == build[|build| - 1];
    NothingToTrim(s);
    IndexOfFirst(text, '+', build);
    assert s[..|text|] == text && s[|text| + 1..] == build;
  }

  lemma PreTextIsPlain(v: Version)
    requires forall x :: x in v.pre ==> '+' !in x
    ensures PreText(v) != "" && IsDigit(PreText(v)[0]) && '+' !in PreText(v)
  {
    CoreTextIsPlain(v);
    JoinAvoids(v.pre, '.', '+');
    assert PreText(v)[0] == CoreText(v)[0];
  }

  // Parse undoes String.
  lemma ParseUndoesWritten(v: Version)
    requires Writable(v)
    ensures Parse(Written(v)) == Some(v)
  {
    PreRoundTrip(v);
    PreTextIsPlain(v);
    if v.build == "" {
      ReadsWithoutBuild(PreText(v));
    } else {
      assert Written(v)[|Written(v)| - 1] == v.build[|v.build| - 1];
      ReadsWithBuild(PreText(v), v.build);
    }
  }

  // What Parse accepts has identifiers that are not empty and hold no separator, but it does not
  // hold them to section 9: "1.0.0-01" is accepted.
  lemma ParsedIdentifiers(text: string)
    requires Parse(text).Some?
    ensures forall x :: x in Parse(text).value.pre ==> x != "" && '.' !in x
  {
  }
}
