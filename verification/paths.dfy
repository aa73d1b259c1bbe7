/**
 * The `pathlib` parts the pages use on POSIX paths: the final component
 * (`.name`), its `.suffix` and `.stem`, joining a directory and a name, and
 * the `*.csv` / `{sample_id}__*.csv` patterns the directory scans match.
 */
module Paths {
  import opened Options
  import opened Strings

  /** The last position of `c` in `s`, if any. */
  function LastIndexOf(s: string, c: char): (r: Option<nat>)
    ensures r.Some? ==> r.value < |s| && s[r.value] == c && c !in s[r.value + 1..]
    ensures r.None? ==> c !in s
  {
    if |s| == 0 then None
    else if s[|s| - 1] == c then Some(|s| - 1)
    else
      assert s == s[..|s| - 1] + [s[|s| - 1]];
      match LastIndexOf(s[..|s| - 1], c)
      case None => None
      case Some(i) =>
        assert s[i + 1..] == s[..|s| - 1][i + 1..] + [s[|s| - 1]];
        Some(i)
  }

  /** `PurePosixPath(p).name` for a normalised path: the text after the last '/'. */
  function FileName(p: string): (r: string)
    ensures '/' !in r
  {
    match LastIndexOf(p, '/')
    case None => p
    case Some(i) => p[i + 1..]
  }

  /** `.suffix`: from the last '.', unless that dot starts the name or ends it. */
  function Suffix(name: string): string {
    match LastIndexOf(name, '.')
    case Some(i) => if 0 < i < |name| - 1 then name[i..] else ""
    case None => ""
  }

  /** `.stem`: the name without its suffix. */
  function Stem(name: string): string {
    match LastIndexOf(name, '.')
    case Some(i) => if 0 < i < |name| - 1 then name[..i] else name
    case None => name
  }

  /** `dir / name`. */
  function Join(dir: string, name: string): string {
    dir + "/" + name
  }

  lemma FileNameOfJoin(dir: string, name: string)
    requires '/' !in name
    ensures FileName(Join(dir, name)) == name
  {
    var p := Join(dir, name);
    assert p[|dir|] == '/';
    assert p[|dir| + 1..] == name;
  }

  predicate EndsWith(s: string, suffix: string) {
    |suffix| <= |s| && s[|s| - |suffix|..] == suffix
  }

  predicate StartsWith(s: string, prefix: string) {
    |prefix| <= |s| && s[..|prefix|] == prefix
  }

  /** Whether `Path.glob("*.csv")` lists a directory entry named `name` (case-sensitive). */
  predicate MatchesCsv(name: string) {
    EndsWith(name, ".csv")
  }

  /** Whether `Path.glob(f"{sample_id}__*.csv")` lists `name`, for a sample id free of pattern characters. */
  predicate MatchesSampleCsv(sampleId: string, name: string) {
    StartsWith(name, sampleId + "__") && EndsWith(name, ".csv") && |name| >= |sampleId| + 2 + 4
  }

  /** The stem of a listed `*.csv` name: the name without ".csv", except for the bare dot-file ".csv". */
  lemma StemOfCsvName(name: string)
    requires MatchesCsv(name)
    ensures |name| > 4 ==> Stem(name) == name[..|name| - 4] && Suffix(name) == ".csv"
    ensures |name| == 4 ==> Stem(name) == name && Suffix(name) == ""
  {
    var i := LastIndexOf(name, '.');
    assert name[|name| - 4] == '.';
    assert i.Some?;
  }
}
