/** The client's URL templating: `buildUrl` fills the `:name` placeholders of
    an API path template with parameter values, replacing the first
    occurrence of each placeholder in the order the parameters are listed. */
module Routes {
  import opened Common
  import opened Strings

  /** A parameter value: a string, or an integral number. */
  datatype ParamValue = PText(text: string) | PNumber(n: int)

  /** JavaScript `String(value)`. */
  function ValueString(v: ParamValue): (r: string)
    ensures v.PText? ==> r == v.text
    ensures v.PNumber? ==> r == IntToString(v.n)
  {
    match v
    case PText(s) => s
    case PNumber(n) => IntToString(n)
  }

  /** The placeholder a parameter name stands for. */
  function Placeholder(key: string): (r: string)
    ensures |r| == |key| + 1 && r[0] == ':'
  {
    ":" + key
  }

  /** The replacement text JavaScript builds from `rep` for a match
      (GetSubstitution, section 22.1.3.19.1 of ECMA-262): `$$` is one `$`,
      `$&` the match, `` $` `` the text before it and `$'` the text after
      it. A string pattern has no capture groups, so every other `$` is
      kept as it is. */
  function Substitution(matched: string, before: string, after: string, rep: string): (r: string)
    ensures '$' !in rep ==> r == rep
  {
    if rep == [] then []
    else if rep[0] == '$' && |rep| >= 2 && rep[1] == '$' then "$" + Substitution(matched, before, after, rep[2..])
    else if rep[0] == '$' && |rep| >= 2 && rep[1] == '&' then matched + Substitution(matched, before, after, rep[2..])
    else if rep[0] == '$' && |rep| >= 2 && rep[1] == '`' then before + Substitution(matched, before, after, rep[2..])
    else if rep[0] == '$' && |rep| >= 2 && rep[1] == '\'' then after + Substitution(matched, before, after, rep[2..])
    else [rep[0]] + Substitution(matched, before, after, rep[1..])
  }

  /** JavaScript `s.replace(pat, rep)` with a string pattern: the first
      occurrence of `pat` is replaced by the substitution built from
      `rep`, and nothing else. */
  function ReplaceFirst(s: string, pat: string, rep: string): (r: string) {
    match IndexOf(s, pat)
    case None => s
    case Some(j) => s[..j] + Substitution(pat, s[..j], s[j + |pat|..], rep) + s[j + |pat|..]
  }

  /** One step of the `forEach`: replace the placeholder when the URL
      contains it. */
  function FillOne(url: string, param: (string, ParamValue)): string {
    var pat := Placeholder(param.0);
    if Contains(url, pat) then ReplaceFirst(url, pat, ValueString(param.1)) else url
  }

  /** The URL after the steps for the first parameters, in order. */
  function FillAll(path: string, params: seq<(string, ParamValue)>): string {
    if params == [] then path
    else FillOne(FillAll(path, params[..|params| - 1]), params[|params| - 1])
  }

  /** `buildUrl(path, params)`, where None stands for no params object. */
  function Fill(path: string, params: Option<seq<(string, ParamValue)>>): (r: string)
    ensures params.None? ==> r == path
  {
    match params
    case None => path
    case Some(ps) => FillAll(path, ps)
  }

  /** The loop of `buildUrl`. */
  method BuildUrl(path: string, params: Option<seq<(string, ParamValue)>>) returns (url: string)
    ensures url == Fill(path, params)
  {
    url := path;
    if params.Some? {
      var ps := params.value;
      for i := 0 to |ps|
        invariant url == FillAll(path, ps[..i])
      {
        assert ps[..i + 1][..i] == ps[..i];
        var pat := Placeholder(ps[i].0);
        if Contains(url, pat) {
          url := ReplaceFirst(url, pat, ValueString(ps[i].1));
        }
      }
      assert ps[..|ps|] == ps;
    }
  }

  // ---------------------------------------------------------------------------
  // Properties

  /** With an empty params object the path comes back unchanged. */
  lemma FillNoParams(path: string)
    ensures Fill(path, Some([])) == path
    ensures Fill(path, None) == path
  {
  }

  /** A parameter whose placeholder does not occur leaves the URL as it
      is. */
  lemma FillOneAbsent(url: string, param: (string, ParamValue))
    requires forall j :: 0 <= j ==> !MatchAt(url, Placeholder(param.0), j)
    ensures FillOne(url, param) == url
  {
  }

  /** The `$` patterns of a replacement, each in turn, and a `$` that
      starts none of them. */
  lemma SubstitutionPatterns()
    ensures Substitution(":id", "/a/", "/b", "x$$y") == "x$y"
    ensures Substitution(":id", "/a/", "/b", "[$&]") == "[:id]"
    ensures Substitution(":id", "/a/", "/b", "$`$'") == "/a//b"
    ensures Substitution(":id", "/a/", "/b", "$1$") == "$1$"
  {
    SubstitutionDollar();
    SubstitutionMatch();
    SubstitutionSides();
    SubstitutionLiteral();
  }

  lemma SubstitutionDollar()
    ensures Substitution(":id", "/a/", "/b", "x$$y") == "x$y"
  {
    assert Substitution(":id", "/a/", "/b", "y") == "y";
    assert Substitution(":id", "/a/", "/b", "$$y") == "$y";
  }

  lemma SubstitutionMatch()
    ensures Substitution(":id", "/a/", "/b", "[$&]") == "[:id]"
  {
    assert Substitution(":id", "/a/", "/b", "]") == "]";
  }

  lemma SubstitutionSides()
    ensures Substitution(":id", "/a/", "/b", "$`$'") == "/a//b"
  {
    assert Substitution(":id", "/a/", "/b", "$'") == "/b";
  }

  lemma SubstitutionLiteral()
    ensures Substitution(":id", "/a/", "/b", "$1$") == "$1$"
  {
    assert Substitution(":id", "/a/", "/b", "$") == "$";
    assert Substitution(":id", "/a/", "/b", "1$") == "1$";
  }

  /** The text of a number holds no `$`, so it is inserted as it is. */
  lemma NumberHasNoDollar(n: int)
    ensures '$' !in ValueString(PNumber(n))
  {
    var s := IntToString(n);
    var ds := NatToString(if n < 0 then -n else n);
    forall k | 0 <= k < |s| ensures s[k] != '$' {
      if n < 0 && k > 0 { assert s[k] == ds[k - 1]; }
    }
  }

  /** `pat` occurs at `j` and nowhere before it. */
  predicate FirstMatch(s: string, pat: string, j: nat) {
    MatchAt(s, pat, j) && forall k :: 0 <= k < j ==> !MatchAt(s, pat, k)
  }

  /** Where the placeholder occurs, its first occurrence is replaced by the
      substitution built from the value, and a value without `$` is
      inserted as it is: the text before it and after it is kept. */
  lemma FillOneFirst(url: string, param: (string, ParamValue), j: nat)
    requires FirstMatch(url, Placeholder(param.0), j)
    ensures var pat := Placeholder(param.0);
      FillOne(url, param) ==
        url[..j] + Substitution(pat, url[..j], url[j + |pat|..], ValueString(param.1)) + url[j + |pat|..]
    ensures '$' !in ValueString(param.1) ==>
      FillOne(url, param) == url[..j] + ValueString(param.1) + url[j + |Placeholder(param.0)|..]
  {
    ContainsWitness(url, Placeholder(param.0), j);
    var r := IndexOf(url, Placeholder(param.0));
    assert r.value == j;
  }

  /** Only the first occurrence is replaced: a later occurrence of the same
      placeholder is still there afterwards, shifted by the change in
      length. */
  lemma FillOneKeepsLater(url: string, param: (string, ParamValue), j: nat, later: nat)
    requires FirstMatch(url, Placeholder(param.0), j)
    requires j + |Placeholder(param.0)| <= later && MatchAt(url, Placeholder(param.0), later)
    ensures var pat := Placeholder(param.0);
      MatchAt(FillOne(url, param), pat,
              later - |pat| + |Substitution(pat, url[..j], url[j + |pat|..], ValueString(param.1))|)
  {
    var pat := Placeholder(param.0);
    var rep := Substitution(pat, url[..j], url[j + |pat|..], ValueString(param.1));
    assert FillOne(url, param) == url[..j] + rep + url[j + |pat|..] by {
      FillOneFirst(url, param, j);
    }
    SpliceKeepsLater(url, pat, j, rep, later);
  }

  /** Replacing the occurrence of `pat` at `j` by `rep` moves a later
      occurrence by the change in length. */
  lemma SpliceKeepsLater(url: string, pat: string, j: nat, rep: string, later: nat)
    requires j + |pat| <= later && MatchAt(url, pat, later)
    ensures MatchAt(url[..j] + rep + url[j + |pat|..], pat, later - |pat| + |rep|)
  {
    var r := url[..j] + rep + url[j + |pat|..];
    var at := later - |pat| + |rep|;
    var tail := url[j + |pat|..];
    assert r[j + |rep|..] == tail;
    assert r[at..] == tail[later - (j + |pat|)..] == url[later..];
    assert r[at..][..|pat|] == r[at..at + |pat|];
    assert url[later..][..|pat|] == url[later..later + |pat|];
  }

  /** A template made of a colon-free prefix, the placeholder and any
      suffix comes back with the substitution in the placeholder's place;
      a value without `$` is inserted as it is. */
  lemma FillSingle(prefix: string, key: string, suffix: string, v: ParamValue)
    requires forall i :: 0 <= i < |prefix| ==> prefix[i] != ':'
    ensures Fill(prefix + Placeholder(key) + suffix, Some([(key, v)])) ==
            prefix + Substitution(Placeholder(key), prefix, suffix, ValueString(v)) + suffix
    ensures '$' !in ValueString(v) ==>
            Fill(prefix + Placeholder(key) + suffix, Some([(key, v)])) == prefix + ValueString(v) + suffix
  {
    var path := prefix + Placeholder(key) + suffix;
    var pat := Placeholder(key);
    assert MatchAt(path, pat, |prefix|) by {
      assert path[|prefix|..|prefix| + |pat|] == pat;
    }
    forall k | 0 <= k < |prefix| ensures !MatchAt(path, pat, k) {
      assert path[k] == prefix[k];
    }
    assert FirstMatch(path, pat, |prefix|);
    FillOneFirst(path, (key, v), |prefix|);
    assert [(key, v)][..0] == [];
    assert FillAll(path, [(key, v)]) == FillOne(path, (key, v));
    assert path[..|prefix|] == prefix;
    assert path[|prefix| + |pat|..] == suffix;
  }

  // ---------------------------------------------------------------------------
  // The API path templates

  const ProjectsPath := "/api/projects"
  const ProjectPath := "/api/projects/:id"
  const ProjectFeaturesPath := "/api/projects/:projectId/features"
  const FeaturePath := "/api/features/:id"
  const ProjectBugsPath := "/api/projects/:projectId/bugs"
  const BugPath := "/api/bugs/:id"
  const ProjectImprovementsPath := "/api/projects/:projectId/improvements"
  const ImprovementPath := "/api/improvements/:id"

  /** Filling an item-list template with a project id. */
  lemma FeaturesPathFilled(n: int)
    ensures Fill(ProjectFeaturesPath, Some([("projectId", PNumber(n))])) ==
            "/api/projects/" + IntToString(n) + "/features"
  {
    assert ProjectFeaturesPath == "/api/projects/" + Placeholder("projectId") + "/features";
    NumberHasNoDollar(n);
    FillSingle("/api/projects/", "projectId", "/features", PNumber(n));
  }

  lemma BugsPathFilled(n: int)
    ensures Fill(ProjectBugsPath, Some([("projectId", PNumber(n))])) ==
            "/api/projects/" + IntToString(n) + "/bugs"
  {
    assert ProjectBugsPath == "/api/projects/" + Placeholder("projectId") + "/bugs";
    NumberHasNoDollar(n);
    FillSingle("/api/projects/", "projectId", "/bugs", PNumber(n));
  }

  lemma ImprovementsPathFilled(n: int)
    ensures Fill(ProjectImprovementsPath, Some([("projectId", PNumber(n))])) ==
            "/api/projects/" + IntToString(n) + "/improvements"
  {
    assert ProjectImprovementsPath == "/api/projects/" + Placeholder("projectId") + "/improvements";
    NumberHasNoDollar(n);
    FillSingle("/api/projects/", "projectId", "/improvements", PNumber(n));
  }

  /** Filling a single-row template with the row's id. */
  lemma RowPaths(n: int)
    ensures Fill(ProjectPath, Some([("id", PNumber(n))])) == "/api/projects/" + IntToString(n)
    ensures Fill(FeaturePath, Some([("id", PNumber(n))])) == "/api/features/" + IntToString(n)
  {
    RowPathFilled(ProjectPath, "/api/projects/", n);
    RowPathFilled(FeaturePath, "/api/features/", n);
  }

  lemma ItemRowPaths(n: int)
    ensures Fill(BugPath, Some([("id", PNumber(n))])) == "/api/bugs/" + IntToString(n)
    ensures Fill(ImprovementPath, Some([("id", PNumber(n))])) == "/api/improvements/" + IntToString(n)
  {
    RowPathFilled(BugPath, "/api/bugs/", n);
    RowPathFilled(ImprovementPath, "/api/improvements/", n);
  }

  /** A template that is a colon-free prefix followed by `:id`. */
  lemma RowPathFilled(path: string, prefix: string, n: int)
    requires path == prefix + ":id"
    requires forall i :: 0 <= i < |prefix| ==> prefix[i] != ':'
    ensures Fill(path, Some([("id", PNumber(n))])) == prefix + IntToString(n)
  {
    NumberHasNoDollar(n);
    assert path == prefix + Placeholder("id") + "";
    FillSingle(prefix, "id", "", PNumber(n));
  }
}
