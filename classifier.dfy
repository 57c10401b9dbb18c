/**
 * The project classifier: a pure, total map from an optional working directory
 * to the label of the project group it belongs to.
 *
 * The user's home directory and Foundation's `URL(string:)` followed by `.path`
 * are not computed here; both are parameters (`home`, `urlPath`).
 */
module ProjectClassifier {
  import opened Wrappers

  const UnknownLabel: string := "Unknown"
  const HomeLabel: string := "~"
  const FileScheme: string := "file://"

  predicate HasPrefix(s: string, prefix: string) {
    |prefix| <= |s| && s[..|prefix|] == prefix
  }

  /** Length of the longest prefix of `s` that holds no '/'. */
  function RunLength(s: string): (n: nat)
    ensures n <= |s|
    ensures forall i :: 0 <= i < n ==> s[i] != '/'
    ensures n == |s| || s[n] == '/'
  {
    if s == [] || s[0] == '/' then 0 else 1 + RunLength(s[1..])
  }

  /** Length of the longest prefix of `s` made only of '/'. */
  function LeadingSlashes(s: string): (n: nat)
    ensures n <= |s|
    ensures forall i :: 0 <= i < n ==> s[i] == '/'
    ensures n == |s| || s[n] != '/'
  {
    if s == [] || s[0] != '/' then 0 else 1 + LeadingSlashes(s[1..])
  }

  /** `s.split(separator: "/")`: the '/'-free runs of `s`, empty runs omitted. */
  function Components(s: string): seq<string>
    decreases |s|
  {
    if s == [] then []
    else if s[0] == '/' then Components(s[1..])
    else
      var n := RunLength(s);
      [s[..n]] + Components(s[n..])
  }

  predicate AllSlashes(s: string) {
    forall i :: 0 <= i < |s| ==> s[i] == '/'
  }

  /** The first '/'-free run of a string that is not all slashes, found by position. */
  function FirstRun(s: string): string
    requires !AllSlashes(s)
  {
    var i := LeadingSlashes(s);
    s[i..i + RunLength(s[i..])]
  }

  /** Every component is non-empty and holds no '/'. */
  lemma {:induction false} ComponentsAreRuns(s: string)
    ensures forall c :: c in Components(s) ==> c != [] && '/' !in c
    decreases |s|
  {
    if s == [] {
    } else if s[0] == '/' {
      ComponentsAreRuns(s[1..]);
    } else {
      var n := RunLength(s);
      ComponentsAreRuns(s[n..]);
      assert n > 0;
      forall i | 0 <= i < n ensures s[..n][i] != '/' { }
    }
  }

  /** `split` finds a first component exactly when the string is not all slashes,
      and that component is the first '/'-free run. */
  lemma {:induction false} FirstComponentIsFirstRun(s: string)
    ensures Components(s) == [] <==> AllSlashes(s)
    ensures Components(s) != [] ==> Components(s)[0] == FirstRun(s)
    decreases |s|
  {
    if s == [] {
    } else if s[0] == '/' {
      FirstComponentIsFirstRun(s[1..]);
      assert AllSlashes(s) <==> AllSlashes(s[1..]) by {
        if AllSlashes(s[1..]) {
          forall i | 0 <= i < |s| ensures s[i] == '/' {
            if i > 0 { assert s[i] == s[1..][i - 1]; }
          }
        }
      }
      if !AllSlashes(s) {
        var i := LeadingSlashes(s[1..]);
        assert LeadingSlashes(s) == 1 + i;
        assert s[1..][i..] == s[1 + i..];
      }
    } else {
      assert !AllSlashes(s);
      assert LeadingSlashes(s) == 0;
    }
  }

  /** `extractProjectNameFromPath`: the label of a plain path. */
  function ExtractProjectNameFromPath(path: string, home: string): string {
    if path == home then
      HomeLabel
    else if HasPrefix(path, home + "/") then
      var components := Components(path[|home| + 1..]);
      if components != [] then components[0] else HomeLabel
    else if HasPrefix(path, "/") && Components(path) != [] then
      "/" + Components(path)[0]
    else
      UnknownLabel
  }

  /** `extractProjectName`: `file://` strings are classified by the path of the
      URL they parse to; a nil directory or an unparsable URL is "Unknown". */
  function ExtractProjectName(directory: Option<string>, home: string,
                              urlPath: string -> Option<string>): (name: string)
    ensures directory.None? ==> name == UnknownLabel
    ensures directory.Some? && HasPrefix(directory.value, FileScheme) ==>
      name == match urlPath(directory.value)
               case None => UnknownLabel
               case Some(p) => ExtractProjectNameFromPath(p, home)
    ensures directory.Some? && !HasPrefix(directory.value, FileScheme) ==>
      name == ExtractProjectNameFromPath(directory.value, home)
  {
    match directory
    case None => UnknownLabel
    case Some(dir) =>
      if HasPrefix(dir, FileScheme) then
        match urlPath(dir)
        case None => UnknownLabel
        case Some(p) => ExtractProjectNameFromPath(p, home)
      else
        ExtractProjectNameFromPath(dir, home)
  }

  /** The classification of a plain path, case by case, with the component
      described by position rather than by `split`. */
  lemma ClassifyPath(path: string, home: string)
    ensures path == home ==> ExtractProjectNameFromPath(path, home) == "~"
    ensures path != home && HasPrefix(path, home + "/") ==>
      var rel := path[|home| + 1..];
      ExtractProjectNameFromPath(path, home) == if AllSlashes(rel) then "~" else FirstRun(rel)
    ensures path != home && !HasPrefix(path, home + "/") && HasPrefix(path, "/") ==>
      ExtractProjectNameFromPath(path, home) == if AllSlashes(path) then "Unknown" else "/" + FirstRun(path)
    ensures path != home && !HasPrefix(path, home + "/") && !HasPrefix(path, "/") ==>
      ExtractProjectNameFromPath(path, home) == "Unknown"
  {
    if path != home && HasPrefix(path, home + "/") {
      FirstComponentIsFirstRun(path[|home| + 1..]);
    }
    FirstComponentIsFirstRun(path);
  }

  /** The root directory alone has no component, so it is "Unknown" unless it is
      the home directory or lies under it. */
  lemma RootIsUnknown(home: string)
    requires home != "/" && !HasPrefix("/", home + "/")
    ensures ExtractProjectNameFromPath("/", home) == "Unknown"
  {
    FirstComponentIsFirstRun("/");
  }

  /** With an absolute home directory, a relative path is "Unknown". */
  lemma RelativePathIsUnknown(path: string, home: string)
    requires HasPrefix(home, "/") && !HasPrefix(path, "/")
    ensures ExtractProjectNameFromPath(path, home) == "Unknown"
  {
    assert home[0] == '/';
    assert path != home;
    assert !HasPrefix(path, home + "/") by {
      if |home + "/"| <= |path| {
        assert path[0] != (home + "/")[0];
        assert path[..|home + "/"|][0] != (home + "/")[0];
      }
    }
  }

  /** Labels are never empty: `split` drops empty components. */
  lemma {:induction false} LabelNeverEmpty(directory: Option<string>, home: string,
                                           urlPath: string -> Option<string>)
    ensures ExtractProjectName(directory, home, urlPath) != ""
  {
    match directory
    case None =>
    case Some(dir) =>
      if HasPrefix(dir, FileScheme) {
        match urlPath(dir)
        case None =>
        case Some(p) => PathLabelNeverEmpty(p, home);
      } else {
        PathLabelNeverEmpty(dir, home);
      }
  }

  lemma {:induction false} PathLabelNeverEmpty(path: string, home: string)
    ensures ExtractProjectNameFromPath(path, home) != ""
  {
    ComponentsAreRuns(path);
    if HasPrefix(path, home + "/") {
      ComponentsAreRuns(path[|home| + 1..]);
      var cs := Components(path[|home| + 1..]);
      if cs != [] { assert cs[0] in cs; }
    }
    if Components(path) != [] { assert Components(path)[0] in Components(path); }
  }
}
