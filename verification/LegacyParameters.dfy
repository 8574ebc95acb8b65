/**
 The top-level legacy parameters of an API, and the check that its required parameters are assigned.
 The two walk the metadata separately and treat repeated names differently.
 */
module LegacyParameters {
  import opened Text
  import opened LegacyNames

  /** apiStyle is None when the API names no operation; absent V1 lists differ from empty ones. */
  datatype Api = Api(
    apiStyle: Option<string>, parameters: seq<Parameter>,
    v1Parameters: Option<seq<V1Parameter>>, v1BodyParameters: Option<seq<V1Parameter>>)

  const EXCLUDED_PARAM_NAMES := {"Action", "OwnerId", "OwnerAccount", "ResourceOwnerId", "ResourceOwnerAccount"}

  function ToLower(s: string): string {
    if s == [] then []
    else [if 'A' <= s[0] <= 'Z' then (s[0] as int + 32) as char else s[0]] + ToLower(s[1..])
  }

  predicate IsBodyLocation(location: string) {
    ToLower(location) in {"body", "form", "formdata"}
  }

  function LegacyPosition(location: string): string {
    var l := ToLower(location);
    if l == "query" then "Query"
    else if l == "body" then "Body"
    else if l == "host" then "Host"
    else if l == "domain" then "Domain"
    else if l == "path" then "Path"
    else if l == "header" then "Header"
    else if l == "form" || l == "formdata" then "Body"
    else ""
  }

  predicate IsCanonicalRepeatList(p: Parameter) {
    p.typ == "array" && p.paramStyle != "flat" && p.paramStyle != "json"
  }

  // ----- The views, by name -----

  /** A public parameter is listed unless it is excluded by name or replaced by V1 body parameters. */
  predicate IsPublic(api: Api, p: Parameter) {
    p.rawName !in EXCLUDED_PARAM_NAMES && !(api.v1BodyParameters.Some? && IsBodyLocation(p.location))
  }

  function WildcardOf(parameters: seq<Parameter>, name: string): bool {
    parameters != [] && if parameters[0].rawName == name then parameters[0].isWildcard else WildcardOf(parameters[1..], name)
  }

  function V1View(api: Api, b: V1Parameter): View {
    V1(b, LegacyPosition(b.position), WildcardOf(api.parameters, b.name))
  }

  /** The view with what is filled in once the list is complete. */
  function Resolved(api: Api, v: View): (r: View)
    ensures r.LegacyName() == v.LegacyName()
  {
    match v
    case Canonical(p, _, _) =>
      var position := LegacyPosition(p.location);
      Canonical(p, position,
        api.apiStyle.Some? && ToLower(api.apiStyle.value) == "rpc" && position == "Query"
        && p.typ == "array" && p.paramStyle == "flat")
    case Body(b, _) => Body(b, true)
    case _ => v
  }

  /** First occurrences win. */
  function V1Views(api: Api, bs: seq<V1Parameter>): map<string, View> {
    if bs == [] then map[]
    else
      var views, b := V1Views(api, bs[..|bs| - 1]), bs[|bs| - 1];
      if b.name in EXCLUDED_PARAM_NAMES || b.name in views then views else views[b.name := V1View(api, b)]
  }

  /** First occurrences win. */
  function PublicViews(api: Api, ps: seq<Parameter>): map<string, View> {
    if ps == [] then map[]
    else
      var views, p := PublicViews(api, ps[..|ps| - 1]), ps[|ps| - 1];
      if !IsPublic(api, p) || p.rawName in views then views else views[p.rawName := Canonical(p, "", false)]
  }

  /** Body parameters replace what was there, so last occurrences win. */
  function WithBodyViews(views: map<string, View>, bs: seq<V1Parameter>): map<string, View> {
    if bs == [] then views
    else WithBodyViews(views, bs[..|bs| - 1])[bs[|bs| - 1].name := Body(bs[|bs| - 1], false)]
  }

  function BodiesOf(api: Api): seq<V1Parameter> {
    api.v1BodyParameters.GetOr([])
  }

  function TopLevelViews(api: Api): map<string, View> {
    if api.v1Parameters.Some? then V1Views(api, api.v1Parameters.value)
    else
      var views := WithBodyViews(PublicViews(api, api.parameters), BodiesOf(api));
      map name | name in views :: Resolved(api, views[name])
  }

  function ViewKey(v: View): string {
    v.LegacyName()
  }

  /** A list of views with different names that are the values of the map. */
  ghost predicate Lists(result: seq<View>, views: map<string, View>) {
    && DistinctBy(result, ViewKey)
    && (forall v :: v in result ==> v.LegacyName() in views && views[v.LegacyName()] == v)
    && (forall name :: name in views ==> views[name].LegacyName() == name && views[name] in result)
  }

  lemma ListsAppend(result: seq<View>, views: map<string, View>, v: View)
    requires Lists(result, views) && v.LegacyName() !in views
    ensures Lists(result + [v], views[v.LegacyName() := v])
  {
    forall i | 0 <= i < |result|
      ensures ViewKey(result[i]) != ViewKey(v)
    {
      assert result[i] in result;
    }
  }

  lemma ListsReplace(result: seq<View>, views: map<string, View>, j: nat, v: View)
    requires Lists(result, views) && j < |result| && result[j].LegacyName() == v.LegacyName()
    ensures Lists(result[j := v], views[v.LegacyName() := v])
  {
    var replaced, updated := result[j := v], views[v.LegacyName() := v];
    forall i, k | 0 <= i < k < |replaced|
      ensures ViewKey(replaced[i]) != ViewKey(replaced[k])
    {
      assert ViewKey(result[i]) != ViewKey(result[k]);
    }
    forall w | w in replaced
      ensures w.LegacyName() in updated && updated[w.LegacyName()] == w
    {
      var i :| 0 <= i < |replaced| && replaced[i] == w;
      if i != j {
        assert result[i] in result;
        assert ViewKey(result[i]) != ViewKey(result[j]);
      }
    }
    forall name | name in updated
      ensures updated[name].LegacyName() == name && updated[name] in replaced
    {
      if name == v.LegacyName() {
        assert replaced[j] == v;
      } else {
        var i :| 0 <= i < |result| && result[i] == views[name];
        assert i != j && replaced[i] == result[i];
      }
    }
  }

  // ----- Which views are listed, said of the metadata itself -----

  /** The text is the word, which is in lower case, with any of its letters in upper case. */
  ghost predicate Folds(s: string, word: string) {
    |s| == |word| && forall i :: 0 <= i < |s| ==> IsCaseOf(s[i], word[i])
  }

  predicate IsCaseOf(c: char, lower: char) {
    c == lower || ('a' <= lower <= 'z' && c as int == lower as int - 32)
  }

  ghost predicate IsLowerCase(word: string) {
    forall i :: 0 <= i < |word| ==> !('A' <= word[i] <= 'Z')
  }

  lemma FoldsUnfolds(s: string, word: string)
    requires s != [] && word != []
    ensures Folds(s, word) <==> IsCaseOf(s[0], word[0]) && Folds(s[1..], word[1..])
  {
    if Folds(s, word) {
      forall i | 0 <= i < |s[1..]|
        ensures IsCaseOf(s[1..][i], word[1..][i])
      {
        assert IsCaseOf(s[i + 1], word[i + 1]);
      }
    }
    if IsCaseOf(s[0], word[0]) && Folds(s[1..], word[1..]) {
      forall i | 0 < i < |s|
        ensures IsCaseOf(s[i], word[i])
      {
        assert IsCaseOf(s[1..][i - 1], word[1..][i - 1]);
      }
    }
  }

  lemma {:induction false} ToLowerIffFolds(s: string, word: string)
    requires IsLowerCase(word)
    ensures ToLower(s) == word <==> Folds(s, word)
  {
    if s != [] && word != [] {
      FoldsUnfolds(s, word);
      ToLowerIffFolds(s[1..], word[1..]);
      assert ToLower(s)[1..] == ToLower(s[1..]);
      assert word == [word[0]] + word[1..];
    }
  }

  predicate IsExcluded(name: string) {
    || name == "Action" || name == "OwnerId" || name == "OwnerAccount" || name == "ResourceOwnerId"
    || name == "ResourceOwnerAccount"
  }

  /** The position that a location means, in any case. */
  ghost predicate IsPositionOf(position: string, location: string) {
    if Folds(location, "query") then position == "Query"
    else if Folds(location, "host") then position == "Host"
    else if Folds(location, "domain") then position == "Domain"
    else if Folds(location, "path") then position == "Path"
    else if Folds(location, "header") then position == "Header"
    else if IsInBody(location) then position == "Body"
    else position == ""
  }

  ghost predicate IsInBody(location: string) {
    Folds(location, "body") || Folds(location, "form") || Folds(location, "formdata")
  }

  lemma PositionOfLocation(location: string, position: string)
    ensures IsPositionOf(position, location) <==> position == LegacyPosition(location)
    ensures IsInBody(location) <==> IsBodyLocation(location)
    ensures Folds(location, "query") <==> LegacyPosition(location) == "Query"
  {
    ToLowerIffFolds(location, "query");
    ToLowerIffFolds(location, "body");
    ToLowerIffFolds(location, "host");
    ToLowerIffFolds(location, "domain");
    ToLowerIffFolds(location, "path");
    ToLowerIffFolds(location, "header");
    ToLowerIffFolds(location, "form");
    ToLowerIffFolds(location, "formdata");
  }

  method LegacyTopLevelParameters(api: Api) returns (result: seq<View>)
    ensures Lists(result, TopLevelViews(api))
    ensures StrictlySortedBy(result, ViewKey)
    ensures forall v :: v in result <==> IsListed(api, v)
  {
    result := [];
    var seen: set<string> := {};
    if api.v1Parameters.Some? {
      var bs := api.v1Parameters.value;
      for i := 0 to |bs|
        invariant Lists(result, V1Views(api, bs[..i])) && seen == V1Views(api, bs[..i]).Keys
      {
        assert bs[..i + 1][..i] == bs[..i];
        var b := bs[i];
        if b.name in EXCLUDED_PARAM_NAMES || b.name in seen {
          continue;
        }
        seen := seen + {b.name};
        var isWildcard := FindWildcard(api.parameters, b.name);
        ListsAppend(result, V1Views(api, bs[..i]), V1View(api, b));
        result := result + [V1(b, LegacyPosition(b.position), isWildcard)];
      }
      assert bs[..|bs|] == bs;
    } else {
      result, seen := ListPublic(api);
      result := AddBodies(api, result, seen);
      result := ChangeAll(result, v => Resolved(api, v), WithBodyViews(PublicViews(api, api.parameters), BodiesOf(api)));
    }
    SortKeepsList(result, TopLevelViews(api));
    result := SortBy(result, ViewKey);
    ListHasListed(api, result);
  }

  lemma ListHasListed(api: Api, result: seq<View>)
    requires Lists(result, TopLevelViews(api))
    ensures forall v :: v in result <==> IsListed(api, v)
  {
    forall v
      ensures v in result <==> IsListed(api, v)
    {
      if api.v1Parameters.Some? {
        ListedV1Iff(api, v);
      } else {
        ListedMergedIff(api, v);
      }
    }
  }

  lemma SortKeepsList(result: seq<View>, views: map<string, View>)
    requires Lists(result, views)
    ensures Lists(SortBy(result, ViewKey), views) && StrictlySortedBy(SortBy(result, ViewKey), ViewKey)
  {
    var sorted := SortBy(result, ViewKey);
    SortByIsStrictIffDistinct(result, ViewKey);
    forall i, j | 0 <= i < j < |sorted|
      ensures ViewKey(sorted[i]) != ViewKey(sorted[j])
    {
      LessIsAsymmetric(ViewKey(sorted[i]), ViewKey(sorted[j]));
    }
    forall v
      ensures v in sorted <==> v in result
    {
      SortByKeepsMembers(result, ViewKey, v);
    }
  }

  method FindWildcard(parameters: seq<Parameter>, name: string) returns (isWildcard: bool)
    ensures isWildcard == WildcardOf(parameters, name)
  {
    isWildcard := false;
    for j := 0 to |parameters|
      invariant WildcardOf(parameters, name) == WildcardOf(parameters[j..], name)
    {
      if parameters[j].rawName == name {
        return parameters[j].isWildcard;
      }
    }
  }

  method ListPublic(api: Api) returns (result: seq<View>, seen: set<string>)
    ensures Lists(result, PublicViews(api, api.parameters)) && seen == PublicViews(api, api.parameters).Keys
  {
    var ps := api.parameters;
    result, seen := [], {};
    for i := 0 to |ps|
      invariant Lists(result, PublicViews(api, ps[..i])) && seen == PublicViews(api, ps[..i]).Keys
    {
      assert ps[..i + 1][..i] == ps[..i];
      var p := ps[i];
      if p.rawName in EXCLUDED_PARAM_NAMES {
        continue;
      }
      if api.v1BodyParameters.Some? && IsBodyLocation(p.location) {
        continue;
      }
      if p.rawName in seen {
        continue;
      }
      seen := seen + {p.rawName};
      ListsAppend(result, PublicViews(api, ps[..i]), Canonical(p, "", false));
      result := result + [Canonical(p, "", false)];
    }
    assert ps[..|ps|] == ps;
  }

  method AddBodies(api: Api, views: seq<View>, names: set<string>) returns (result: seq<View>)
    requires Lists(views, PublicViews(api, api.parameters)) && names == PublicViews(api, api.parameters).Keys
    ensures Lists(result, WithBodyViews(PublicViews(api, api.parameters), BodiesOf(api)))
  {
    ghost var public := PublicViews(api, api.parameters);
    var bs, seen := BodiesOf(api), names;
    result := views;
    for i := 0 to |bs|
      invariant Lists(result, WithBodyViews(public, bs[..i])) && seen == WithBodyViews(public, bs[..i]).Keys
    {
      assert bs[..i + 1][..i] == bs[..i];
      ghost var before := WithBodyViews(public, bs[..i]);
      var b := bs[i];
      if b.name in seen {
        var j := 0;
        while j < |result| && result[j].LegacyName() != b.name
          invariant j <= |result| && forall k :: 0 <= k < j ==> result[k].LegacyName() != b.name
        {
          j := j + 1;
        }
        assert before[b.name] in result;
        ListsReplace(result, before, j, Body(b, false));
        result := result[j := Body(b, false)];
      } else {
        seen := seen + {b.name};
        ListsAppend(result, before, Body(b, false));
        result := result + [Body(b, false)];
      }
    }
    assert bs[..|bs|] == bs;
  }

  method ChangeAll(views: seq<View>, change: View -> View, ghost filed: map<string, View>) returns (result: seq<View>)
    requires Lists(views, filed) && forall v :: change(v).LegacyName() == v.LegacyName()
    ensures Lists(result, map name | name in filed :: change(filed[name]))
  {
    result := views;
    for i := 0 to |views|
      invariant |result| == |views|
      invariant forall k :: 0 <= k < i ==> result[k] == change(views[k])
      invariant forall k :: i <= k < |views| ==> result[k] == views[k]
    {
      result := result[i := change(result[i])];
    }
    ListsChanged(views, filed, change, result);
  }

  /** A change of every view that keeps its name keeps the list. */
  lemma ListsChanged(views: seq<View>, filed: map<string, View>, change: View -> View, result: seq<View>)
    requires Lists(views, filed)
    requires forall v :: change(v).LegacyName() == v.LegacyName()
    requires |result| == |views| && forall k :: 0 <= k < |views| ==> result[k] == change(views[k])
    ensures Lists(result, map name | name in filed :: change(filed[name]))
  {
    forall k | 0 <= k < |views|
      ensures ViewKey(result[k]) == ViewKey(views[k]) && views[k] in views
    {
    }
    assert DistinctBy(result, ViewKey);
    forall v | v in result
      ensures v.LegacyName() in filed && change(filed[v.LegacyName()]) == v
    {
      var i :| 0 <= i < |result| && result[i] == v;
      assert ViewKey(result[i]) == ViewKey(views[i]);
    }
    forall name | name in filed
      ensures change(filed[name]).LegacyName() == name && change(filed[name]) in result
    {
      var i :| 0 <= i < |views| && views[i] == filed[name];
      assert result[i] in result;
    }
  }

  // ----- The required-parameter check -----

  /** Names that were checked, each with whether it must be assigned. */
  type Checked = seq<(string, bool)>

  predicate BodyDemands(b: V1Parameter) {
    b.required && !IsBodyRepeatList(b)
  }

  predicate ParameterDemands(p: Parameter) {
    p.required && !IsCanonicalRepeatList(p)
  }

  predicate HasName(checked: Checked, name: string) {
    exists i :: 0 <= i < |checked| && checked[i].0 == name
  }

  function AddChecked(checked: Checked, name: string, demands: bool): Checked {
    if HasName(checked, name) then checked else checked + [(name, demands)]
  }

  function V1Checked(bs: seq<V1Parameter>): Checked {
    if bs == [] then []
    else
      var checked, b := V1Checked(bs[..|bs| - 1]), bs[|bs| - 1];
      if b.name in EXCLUDED_PARAM_NAMES then checked else AddChecked(checked, b.name, BodyDemands(b))
  }

  function PublicChecked(api: Api, ps: seq<Parameter>, bodyNames: set<string>): Checked {
    if ps == [] then []
    else
      var checked, p := PublicChecked(api, ps[..|ps| - 1], bodyNames), ps[|ps| - 1];
      if !IsPublic(api, p) || p.rawName in bodyNames then checked else AddChecked(checked, p.rawName, ParameterDemands(p))
  }

  function WithBodyChecked(checked: Checked, bs: seq<V1Parameter>): Checked {
    if bs == [] then checked
    else
      var b := bs[|bs| - 1];
      AddChecked(WithBodyChecked(checked, bs[..|bs| - 1]), b.name, BodyDemands(b))
  }

  function BodyNames(bs: seq<V1Parameter>): set<string> {
    set b | b in bs :: b.name
  }

  /** What the check looks at, in declaration order. */
  function CheckedParameters(api: Api): Checked {
    if api.v1Parameters.Some? then V1Checked(api.v1Parameters.value)
    else WithBodyChecked(PublicChecked(api, api.parameters, BodyNames(BodiesOf(api))), BodiesOf(api))
  }

  function Missing(checked: Checked, checker: string -> bool): seq<string> {
    if checked == [] then []
    else
      var (name, demands) := checked[|checked| - 1];
      Missing(checked[..|checked| - 1], checker) + if demands && !checker(name) then [name] else []
  }

  lemma MissingOfAdded(checked: Checked, name: string, demands: bool, checker: string -> bool)
    ensures Missing(checked + [(name, demands)], checker) ==
      Missing(checked, checker) + if demands && !checker(name) then [name] else []
  {
    assert (checked + [(name, demands)])[..|checked|] == checked;
  }

  ghost function NamesOf(checked: Checked): set<string> {
    set i | 0 <= i < |checked| :: checked[i].0
  }

  lemma NamesOfAdded(checked: Checked, name: string, demands: bool)
    ensures NamesOf(checked + [(name, demands)]) == NamesOf(checked) + {name}
    ensures HasName(checked, name) <==> name in NamesOf(checked)
  {
    var added := checked + [(name, demands)];
    forall n
      ensures n in NamesOf(added) <==> n in NamesOf(checked) || n == name
    {
      if n in NamesOf(checked) {
        var i :| 0 <= i < |checked| && checked[i].0 == n;
        assert added[i].0 == n;
      }
      assert added[|checked|].0 == name;
    }
  }

  /** The names reported missing, in the order of the metadata. */
  method CheckLegacyRequiredParameters(api: Api, checker: string -> bool) returns (missing: seq<string>)
    ensures missing == Missing(CheckedParameters(api), checker)
    ensures forall name :: name in missing <==> IsMissing(api, checker, name)
  {
    missing := [];
    var seen: set<string> := {};
    forall name
      ensures name in Missing(CheckedParameters(api), checker) <==> IsMissing(api, checker, name)
    {
      MissingIff(api, checker, name);
    }
    if api.v1Parameters.Some? {
      var bs := api.v1Parameters.value;
      for i := 0 to |bs|
        invariant seen == NamesOf(V1Checked(bs[..i])) && missing == Missing(V1Checked(bs[..i]), checker)
      {
        assert bs[..i + 1][..i] == bs[..i];
        var b := bs[i];
        NamesOfAdded(V1Checked(bs[..i]), b.name, BodyDemands(b));
        MissingOfAdded(V1Checked(bs[..i]), b.name, BodyDemands(b), checker);
        if b.name in EXCLUDED_PARAM_NAMES || b.name in seen {
          continue;
        }
        seen := seen + {b.name};
        if b.required && !IsBodyRepeatList(b) && !checker(b.name) {
          missing := missing + [b.name];
        }
      }
      assert bs[..|bs|] == bs;
      return;
    }
    missing, seen := CheckPublic(api, checker);
    missing := CheckBodies(api, checker, missing, seen);
  }

  method CheckPublic(api: Api, checker: string -> bool) returns (missing: seq<string>, seen: set<string>)
    ensures
      var checked := PublicChecked(api, api.parameters, BodyNames(BodiesOf(api)));
      seen == NamesOf(checked) && missing == Missing(checked, checker)
  {
    missing, seen := [], {};
    var ps, bodyNames := api.parameters, BodyNames(BodiesOf(api));
    for i := 0 to |ps|
      invariant seen == NamesOf(PublicChecked(api, ps[..i], bodyNames))
      invariant missing == Missing(PublicChecked(api, ps[..i], bodyNames), checker)
    {
      assert ps[..i + 1][..i] == ps[..i];
      var p := ps[i];
      ghost var checked := PublicChecked(api, ps[..i], bodyNames);
      NamesOfAdded(checked, p.rawName, ParameterDemands(p));
      MissingOfAdded(checked, p.rawName, ParameterDemands(p), checker);
      if p.rawName in EXCLUDED_PARAM_NAMES {
        continue;
      }
      if api.v1BodyParameters.Some? && IsBodyLocation(p.location) {
        continue;
      }
      if p.rawName in bodyNames || p.rawName in seen {
        continue;
      }
      seen := seen + {p.rawName};
      if p.required && !IsCanonicalRepeatList(p) && !checker(p.rawName) {
        missing := missing + [p.rawName];
      }
    }
    assert ps[..|ps|] == ps;
  }

  method CheckBodies(api: Api, checker: string -> bool, missingBefore: seq<string>, seenBefore: set<string>)
    returns (missing: seq<string>)
    requires
      var checked := PublicChecked(api, api.parameters, BodyNames(BodiesOf(api)));
      seenBefore == NamesOf(checked) && missingBefore == Missing(checked, checker)
    ensures
      var checked := PublicChecked(api, api.parameters, BodyNames(BodiesOf(api)));
      missing == Missing(WithBodyChecked(checked, BodiesOf(api)), checker)
  {
    ghost var public := PublicChecked(api, api.parameters, BodyNames(BodiesOf(api)));
    var bs, seen := BodiesOf(api), seenBefore;
    missing := missingBefore;
    for i := 0 to |bs|
      invariant seen == NamesOf(WithBodyChecked(public, bs[..i]))
      invariant missing == Missing(WithBodyChecked(public, bs[..i]), checker)
    {
      assert bs[..i + 1][..i] == bs[..i];
      var b := bs[i];
      NamesOfAdded(WithBodyChecked(public, bs[..i]), b.name, BodyDemands(b));
      MissingOfAdded(WithBodyChecked(public, bs[..i]), b.name, BodyDemands(b), checker);
      if b.name in seen {
        continue;
      }
      seen := seen + {b.name};
      if b.required && !IsBodyRepeatList(b) && !checker(b.name) {
        missing := missing + [b.name];
      }
    }
    assert bs[..|bs|] == bs;
  }

  // ----- First and last occurrences -----

  function FirstNamed(bs: seq<V1Parameter>, name: string): Option<V1Parameter> {
    if bs == [] then None
    else
      var first := FirstNamed(bs[..|bs| - 1], name);
      if first.Some? then first else if bs[|bs| - 1].name == name then Some(bs[|bs| - 1]) else None
  }

  function LastNamed(bs: seq<V1Parameter>, name: string): Option<V1Parameter> {
    if bs == [] then None
    else if bs[|bs| - 1].name == name then Some(bs[|bs| - 1])
    else LastNamed(bs[..|bs| - 1], name)
  }

  function FirstPublic(api: Api, ps: seq<Parameter>, name: string): Option<Parameter> {
    if ps == [] then None
    else
      var first := FirstPublic(api, ps[..|ps| - 1], name);
      if first.Some? then first
      else if IsPublic(api, ps[|ps| - 1]) && ps[|ps| - 1].rawName == name then Some(ps[|ps| - 1])
      else None
  }

  lemma {:induction false} FirstIffLast(bs: seq<V1Parameter>, name: string)
    ensures FirstNamed(bs, name).Some? <==> LastNamed(bs, name).Some?
    ensures FirstNamed(bs, name).Some? <==> name in BodyNames(bs)
  {
    if bs != [] {
      var init, last := bs[..|bs| - 1], bs[|bs| - 1];
      FirstIffLast(init, name);
      assert bs == init + [last];
      assert BodyNames(bs) == BodyNames(init) + {last.name};
    }
  }

  ghost function Get(views: map<string, View>, name: string): Option<View> {
    if name in views then Some(views[name]) else None
  }

  lemma {:induction false} V1ViewIsFirst(api: Api, bs: seq<V1Parameter>, name: string)
    ensures Get(V1Views(api, bs), name) ==
      if name in EXCLUDED_PARAM_NAMES || FirstNamed(bs, name).None? then None
      else Some(V1View(api, FirstNamed(bs, name).value))
  {
    if bs != [] {
      V1ViewIsFirst(api, bs[..|bs| - 1], name);
    }
  }

  lemma {:induction false} PublicViewIsFirst(api: Api, ps: seq<Parameter>, name: string)
    ensures Get(PublicViews(api, ps), name) ==
      if FirstPublic(api, ps, name).None? then None else Some(Canonical(FirstPublic(api, ps, name).value, "", false))
  {
    if ps != [] {
      PublicViewIsFirst(api, ps[..|ps| - 1], name);
    }
  }

  lemma {:induction false} BodyViewIsLast(views: map<string, View>, bs: seq<V1Parameter>, name: string)
    ensures Get(WithBodyViews(views, bs), name) ==
      if LastNamed(bs, name).None? then Get(views, name) else Some(Body(LastNamed(bs, name).value, false))
  {
    if bs != [] {
      BodyViewIsLast(views, bs[..|bs| - 1], name);
    }
  }

  // ----- What is listed, said of the metadata itself -----

  ghost predicate IsFirst(bs: seq<V1Parameter>, b: V1Parameter) {
    exists i :: 0 <= i < |bs| && bs[i] == b && forall j :: 0 <= j < i ==> bs[j].name != b.name
  }

  ghost predicate IsLast(bs: seq<V1Parameter>, b: V1Parameter) {
    exists i :: 0 <= i < |bs| && bs[i] == b && forall j :: i < j < |bs| ==> bs[j].name != b.name
  }

  ghost predicate HasNone(bs: seq<V1Parameter>, name: string) {
    forall i :: 0 <= i < |bs| ==> bs[i].name != name
  }

  lemma {:induction false} FirstNamedIff(bs: seq<V1Parameter>, b: V1Parameter)
    ensures FirstNamed(bs, b.name) == Some(b) <==> IsFirst(bs, b)
    ensures FirstNamed(bs, b.name).None? <==> HasNone(bs, b.name)
  {
    if bs != [] {
      var init, last := bs[..|bs| - 1], bs[|bs| - 1];
      FirstNamedIff(init, b);
      assert bs == init + [last];
      HasNoneUnfolds(init, last, b.name);
      assert IsFirst(bs, b) <==> IsFirst(init, b) || (HasNone(init, b.name) && last == b) by {
        if i :| 0 <= i < |init| && init[i] == b && forall j :: 0 <= j < i ==> init[j].name != b.name {
          assert bs[i] == b;
        }
        if HasNone(init, b.name) && last == b {
          assert bs[|init|] == b;
        }
      }
      assert IsFirst(init, b) ==> FirstNamed(init, b.name).Some?;
    }
  }

  lemma HasNoneUnfolds(init: seq<V1Parameter>, last: V1Parameter, name: string)
    ensures HasNone(init + [last], name) <==> HasNone(init, name) && last.name != name
  {
    var bs := init + [last];
    assert bs[|init|] == last;
    assert forall i :: 0 <= i < |init| ==> bs[i] == init[i];
  }

  lemma IsLastUnfolds(init: seq<V1Parameter>, last: V1Parameter, b: V1Parameter)
    ensures IsLast(init + [last], b) <==> last == b || (IsLast(init, b) && last.name != b.name)
  {
    var bs := init + [last];
    assert bs[|init|] == last;
    if IsLast(init, b) && last.name != b.name {
      var i :| 0 <= i < |init| && init[i] == b && forall j :: i < j < |init| ==> init[j].name != b.name;
      assert bs[i] == b;
    }
    if IsLast(bs, b) && last != b {
      var i :| 0 <= i < |bs| && bs[i] == b && forall j :: i < j < |bs| ==> bs[j].name != b.name;
      assert init[i] == b && bs[|init|].name != b.name;
      assert forall j :: i < j < |init| ==> init[j] == bs[j];
    }
  }

  lemma {:induction false} LastNamedIff(bs: seq<V1Parameter>, b: V1Parameter)
    ensures LastNamed(bs, b.name) == Some(b) <==> IsLast(bs, b)
    ensures LastNamed(bs, b.name).None? <==> HasNone(bs, b.name)
  {
    if bs != [] {
      var init, last := bs[..|bs| - 1], bs[|bs| - 1];
      LastNamedIff(init, b);
      assert bs == init + [last];
      HasNoneUnfolds(init, last, b.name);
      IsLastUnfolds(init, last, b);
    }
  }

  ghost predicate MayBeListed(api: Api, p: Parameter) {
    !IsExcluded(p.rawName) && !(api.v1BodyParameters.Some? && IsInBody(p.location))
  }

  lemma IsPublicIff(api: Api, p: Parameter)
    ensures IsPublic(api, p) <==> MayBeListed(api, p)
  {
    PositionOfLocation(p.location, "");
  }

  ghost predicate IsFirstListed(api: Api, ps: seq<Parameter>, p: Parameter) {
    && MayBeListed(api, p)
    && exists i :: 0 <= i < |ps| && ps[i] == p && forall j :: 0 <= j < i ==> IsOther(api, ps[j], p)
  }

  /** The parameter is not in the way of the other. */
  ghost predicate IsOther(api: Api, p: Parameter, other: Parameter) {
    MayBeListed(api, p) ==> p.rawName != other.rawName
  }

  lemma {:induction false} FirstPublicIff(api: Api, ps: seq<Parameter>, p: Parameter)
    ensures FirstPublic(api, ps, p.rawName) == Some(p) <==> IsFirstListed(api, ps, p)
    ensures FirstPublic(api, ps, p.rawName).None? <==> forall i :: 0 <= i < |ps| ==> IsOther(api, ps[i], p)
  {
    if ps != [] {
      var init, last := ps[..|ps| - 1], ps[|ps| - 1];
      FirstPublicIff(api, init, p);
      IsPublicIff(api, last);
      var none := forall i :: 0 <= i < |init| ==> IsOther(api, init[i], p);
      assert IsFirstListed(api, ps, p) <==> IsFirstListed(api, init, p) || (none && last == p && MayBeListed(api, p)) by {
        if i :| 0 <= i < |init| && init[i] == p && forall j :: 0 <= j < i ==> IsOther(api, init[j], p) {
          assert ps[i] == p;
        }
        if none && last == p {
          assert ps[|init|] == p;
        }
      }
    }
  }

  ghost predicate IsFirstWildcard(ps: seq<Parameter>, name: string) {
    exists i :: 0 <= i < |ps| && ps[i].rawName == name && ps[i].isWildcard && forall j :: 0 <= j < i ==> ps[j].rawName != name
  }

  lemma {:induction false} WildcardIff(ps: seq<Parameter>, name: string)
    ensures WildcardOf(ps, name) <==> IsFirstWildcard(ps, name)
  {
    if ps != [] {
      var rest := ps[1..];
      WildcardIff(rest, name);
      if ps[0].rawName != name && IsFirstWildcard(rest, name) {
        var i :|
          && 0 <= i < |rest| && rest[i].rawName == name && rest[i].isWildcard
          && forall j :: 0 <= j < i ==> rest[j].rawName != name;
        assert ps[i + 1].isWildcard && forall j :: 0 < j < i + 1 ==> ps[j] == rest[j - 1];
      }
      if ps[0].rawName != name && IsFirstWildcard(ps, name) {
        var i :| 0 <= i < |ps| && ps[i].rawName == name && ps[i].isWildcard && forall j :: 0 <= j < i ==> ps[j].rawName != name;
        assert rest[i - 1].isWildcard && forall j :: 0 <= j < i - 1 ==> rest[j] == ps[j + 1];
      }
    }
  }

  /** With a v1 list: its parameters, each name by its first, except the excluded names. Else the v1 body parameters, each
      name by its last, and the other public parameters, each name by its first; with v1 body parameters no public one
      in the body. A view knows its position, whether it is a flat array of an RPC query, and whether it is at the top. */
  ghost predicate IsListed(api: Api, v: View) {
    match v
    case V1(b, position, isWildcard) =>
      && api.v1Parameters.Some? && IsFirst(api.v1Parameters.value, b) && !IsExcluded(b.name)
      && IsPositionOf(position, b.position) && (isWildcard <==> IsFirstWildcard(api.parameters, b.name))
    case Canonical(p, position, rpc) =>
      && api.v1Parameters.None? && IsFirstListed(api, api.parameters, p)
      && (api.v1BodyParameters.Some? ==> HasNone(api.v1BodyParameters.value, p.rawName))
      && IsPositionOf(position, p.location)
      && (rpc <==> api.apiStyle.Some? && Folds(api.apiStyle.value, "rpc") && Folds(p.location, "query")
                   && p.typ == "array" && p.paramStyle == "flat")
    case Body(b, isTopBody) =>
      api.v1Parameters.None? && api.v1BodyParameters.Some? && IsLast(api.v1BodyParameters.value, b) && isTopBody
    case FieldView(_, _) => false
  }

  lemma ListedV1Iff(api: Api, v: View)
    requires api.v1Parameters.Some?
    ensures Get(TopLevelViews(api), v.LegacyName()) == Some(v) <==> IsListed(api, v)
  {
    V1ViewIsFirst(api, api.v1Parameters.value, v.LegacyName());
    if v.V1? {
      FirstNamedIff(api.v1Parameters.value, v.body);
      PositionOfLocation(v.body.position, v.resolvedPosition);
      WildcardIff(api.parameters, v.body.name);
    }
  }

  lemma ListedMergedIff(api: Api, v: View)
    requires api.v1Parameters.None?
    ensures Get(TopLevelViews(api), v.LegacyName()) == Some(v) <==> IsListed(api, v)
  {
    PublicViewIsFirst(api, api.parameters, v.LegacyName());
    BodyViewIsLast(PublicViews(api, api.parameters), BodiesOf(api), v.LegacyName());
    match v
    case Canonical(p, position, rpc) =>
      FirstPublicIff(api, api.parameters, p);
      PositionOfLocation(p.location, position);
      LastNamedIff(BodiesOf(api), V1Parameter(p.rawName, "", "", "", false, []));
      if api.apiStyle.Some? {
        ToLowerIffFolds(api.apiStyle.value, "rpc");
      }
    case Body(b, _) =>
      LastNamedIff(BodiesOf(api), b);
    case _ =>
  }

  // ----- What the check reports -----

  function Lookup(checked: Checked, name: string): Option<bool> {
    if checked == [] then None
    else
      var before := Lookup(checked[..|checked| - 1], name);
      if before.Some? then before
      else if checked[|checked| - 1].0 == name then Some(checked[|checked| - 1].1)
      else None
  }

  lemma {:induction false} LookupFindsNames(checked: Checked, name: string)
    ensures Lookup(checked, name).Some? <==> HasName(checked, name)
  {
    if checked != [] {
      var init := checked[..|checked| - 1];
      LookupFindsNames(init, name);
      assert HasName(init, name) ==> HasName(checked, name) by {
        if i :| 0 <= i < |init| && init[i].0 == name {
          assert checked[i].0 == name;
        }
      }
    }
  }

  ghost predicate HasDistinctNames(checked: Checked) {
    forall i, j :: 0 <= i < j < |checked| ==> checked[i].0 != checked[j].0
  }

  lemma LookupOfAdded(checked: Checked, name: string, demands: bool, n: string)
    requires HasDistinctNames(checked)
    ensures HasDistinctNames(AddChecked(checked, name, demands))
    ensures Lookup(AddChecked(checked, name, demands), n) ==
      if Lookup(checked, n).Some? then Lookup(checked, n) else if n == name then Some(demands) else None
  {
    LookupFindsNames(checked, name);
    var added := checked + [(name, demands)];
    assert added[..|checked|] == checked;
  }

  lemma {:induction false} V1CheckedIsFirst(bs: seq<V1Parameter>, name: string)
    ensures HasDistinctNames(V1Checked(bs))
    ensures Lookup(V1Checked(bs), name) ==
      if name in EXCLUDED_PARAM_NAMES || FirstNamed(bs, name).None? then None
      else Some(BodyDemands(FirstNamed(bs, name).value))
  {
    if bs != [] {
      var b := bs[|bs| - 1];
      V1CheckedIsFirst(bs[..|bs| - 1], name);
      LookupOfAdded(V1Checked(bs[..|bs| - 1]), b.name, BodyDemands(b), name);
    }
  }

  lemma {:induction false} PublicCheckedIsFirst(api: Api, ps: seq<Parameter>, bodyNames: set<string>, name: string)
    ensures HasDistinctNames(PublicChecked(api, ps, bodyNames))
    ensures Lookup(PublicChecked(api, ps, bodyNames), name) ==
      if name in bodyNames || FirstPublic(api, ps, name).None? then None
      else Some(ParameterDemands(FirstPublic(api, ps, name).value))
  {
    if ps != [] {
      var p := ps[|ps| - 1];
      PublicCheckedIsFirst(api, ps[..|ps| - 1], bodyNames, name);
      LookupOfAdded(PublicChecked(api, ps[..|ps| - 1], bodyNames), p.rawName, ParameterDemands(p), name);
    }
  }

  lemma {:induction false} BodyCheckedIsFirst(checked: Checked, bs: seq<V1Parameter>, name: string)
    requires HasDistinctNames(checked)
    ensures HasDistinctNames(WithBodyChecked(checked, bs))
    ensures Lookup(WithBodyChecked(checked, bs), name) ==
      if Lookup(checked, name).Some? then Lookup(checked, name)
      else if FirstNamed(bs, name).Some? then Some(BodyDemands(FirstNamed(bs, name).value))
      else None
  {
    if bs != [] {
      var b := bs[|bs| - 1];
      BodyCheckedIsFirst(checked, bs[..|bs| - 1], name);
      LookupOfAdded(WithBodyChecked(checked, bs[..|bs| - 1]), b.name, BodyDemands(b), name);
    }
  }

  lemma {:induction false} MissingIffDemanded(checked: Checked, checker: string -> bool, name: string)
    requires HasDistinctNames(checked)
    ensures name in Missing(checked, checker) <==> Lookup(checked, name) == Some(true) && !checker(name)
  {
    if checked != [] {
      var init, last := checked[..|checked| - 1], checked[|checked| - 1];
      MissingIffDemanded(init, checker, name);
      LookupFindsNames(init, last.0);
      forall i | 0 <= i < |init|
        ensures init[i].0 != last.0
      {
        assert checked[i].0 != checked[|init|].0;
      }
    }
  }

  // ----- The two walks compared -----

  /** An array with a style other than flat or json. Fields are never at the top. */
  predicate IsTopRepeatList(v: View) {
    match v
    case Canonical(p, _, _) => IsCanonicalRepeatList(p)
    case FieldView(_, _) => true
    case Body(b, _) => IsBodyRepeatList(b)
    case V1(b, _, _) => IsBodyRepeatList(b)
  }

  /** A view must be assigned if it is required and no array with a style other than flat or json. */
  predicate Demands(v: View) {
    v.LegacyRequired() && !IsTopRepeatList(v)
  }

  /** Whatever is assigned, the check reports exactly the listed parameters that must be assigned and are not. */
  ghost predicate CheckMatchesList(api: Api) {
    forall checker: string -> bool, name: string :: ReportsAsListed(api, checker, name)
  }

  ghost predicate ReportsAsListed(api: Api, checker: string -> bool, name: string) {
    name in Missing(CheckedParameters(api), checker) <==>
      name in TopLevelViews(api) && Demands(TopLevelViews(api)[name]) && !checker(name)
  }

  /** First and last of the body parameters with one name agree on whether the name must be assigned. */
  ghost predicate RepeatedBodiesAgree(bs: seq<V1Parameter>) {
    forall name :: FirstNamed(bs, name).Some? && LastNamed(bs, name).Some? ==>
      (BodyDemands(FirstNamed(bs, name).value) <==> BodyDemands(LastNamed(bs, name).value))
  }

  lemma ListedDemand(api: Api, name: string)
    ensures
      var views := TopLevelViews(api);
      var listed := name in views && Demands(views[name]);
      if api.v1Parameters.Some? then
        listed <==> name !in EXCLUDED_PARAM_NAMES && FirstNamed(api.v1Parameters.value, name).Some?
                    && BodyDemands(FirstNamed(api.v1Parameters.value, name).value)
      else if LastNamed(BodiesOf(api), name).Some? then listed <==> BodyDemands(LastNamed(BodiesOf(api), name).value)
      else
        listed <==> FirstPublic(api, api.parameters, name).Some?
                    && ParameterDemands(FirstPublic(api, api.parameters, name).value)
  {
    if api.v1Parameters.Some? {
      V1ViewIsFirst(api, api.v1Parameters.value, name);
    } else {
      PublicViewIsFirst(api, api.parameters, name);
      BodyViewIsLast(PublicViews(api, api.parameters), BodiesOf(api), name);
    }
  }

  lemma CheckedDemand(api: Api, checker: string -> bool, name: string)
    ensures
      var checked := name in Missing(CheckedParameters(api), checker);
      if api.v1Parameters.Some? then
        checked <==> name !in EXCLUDED_PARAM_NAMES && FirstNamed(api.v1Parameters.value, name).Some?
                     && BodyDemands(FirstNamed(api.v1Parameters.value, name).value) && !checker(name)
      else if FirstNamed(BodiesOf(api), name).Some? then
        checked <==> BodyDemands(FirstNamed(BodiesOf(api), name).value) && !checker(name)
      else
        checked <==> FirstPublic(api, api.parameters, name).Some?
                     && ParameterDemands(FirstPublic(api, api.parameters, name).value) && !checker(name)
  {
    var bs := BodiesOf(api);
    if api.v1Parameters.Some? {
      V1CheckedIsFirst(api.v1Parameters.value, name);
    } else {
      FirstIffLast(bs, name);
      PublicCheckedIsFirst(api, api.parameters, BodyNames(bs), name);
      BodyCheckedIsFirst(PublicChecked(api, api.parameters, BodyNames(bs)), bs, name);
    }
    MissingIffDemanded(CheckedParameters(api), checker, name);
  }

  /** A list of values is given by its elements, so it is not asked for itself. */
  predicate IsList(typ: string, paramStyle: string) {
    typ == "array" && paramStyle != "flat" && paramStyle != "json"
  }

  /** Nothing is assigned to the name, and the parameter that decides is required and no list: the first v1 parameter if
      there is a v1 list; else the first v1 body parameter; else the first public one. */
  ghost predicate IsMissing(api: Api, checker: string -> bool, name: string) {
    && !checker(name)
    && if api.v1Parameters.Some? then !IsExcluded(name) && IsDemandedBy(api.v1Parameters.value, name)
       else
         || (api.v1BodyParameters.Some? && IsDemandedBy(api.v1BodyParameters.value, name))
         || ((api.v1BodyParameters.Some? ==> HasNone(api.v1BodyParameters.value, name)) && IsDemandedByPublic(api, name))
  }

  ghost predicate IsDemandedBy(bs: seq<V1Parameter>, name: string) {
    exists b :: IsFirst(bs, b) && b.name == name && b.required && !IsList(b.typ, b.paramStyle)
  }

  ghost predicate IsDemandedByPublic(api: Api, name: string) {
    exists p :: IsFirstListed(api, api.parameters, p) && p.rawName == name && p.required && !IsList(p.typ, p.paramStyle)
  }

  lemma DemandedByIff(bs: seq<V1Parameter>, name: string)
    ensures IsDemandedBy(bs, name) <==> FirstNamed(bs, name).Some? && BodyDemands(FirstNamed(bs, name).value)
    ensures HasNone(bs, name) <==> FirstNamed(bs, name).None?
  {
    if b :| IsFirst(bs, b) && b.name == name {
      FirstNamedIff(bs, b);
    }
    if FirstNamed(bs, name).Some? {
      FirstNamedHasName(bs, name);
      FirstNamedIff(bs, FirstNamed(bs, name).value);
    } else {
      FirstNamedIff(bs, V1Parameter(name, "", "", "", false, []));
    }
  }

  lemma {:induction false} FirstNamedHasName(bs: seq<V1Parameter>, name: string)
    ensures FirstNamed(bs, name).Some? ==> FirstNamed(bs, name).value.name == name
  {
    if bs != [] {
      FirstNamedHasName(bs[..|bs| - 1], name);
    }
  }

  lemma {:induction false} FirstPublicHasName(api: Api, ps: seq<Parameter>, name: string)
    ensures FirstPublic(api, ps, name).Some? ==> FirstPublic(api, ps, name).value.rawName == name
  {
    if ps != [] {
      FirstPublicHasName(api, ps[..|ps| - 1], name);
    }
  }

  lemma DemandedByPublicIff(api: Api, name: string)
    ensures IsDemandedByPublic(api, name) <==>
      FirstPublic(api, api.parameters, name).Some? && ParameterDemands(FirstPublic(api, api.parameters, name).value)
  {
    if p :| IsFirstListed(api, api.parameters, p) && p.rawName == name {
      FirstPublicIff(api, api.parameters, p);
    }
    if FirstPublic(api, api.parameters, name).Some? {
      FirstPublicHasName(api, api.parameters, name);
      FirstPublicIff(api, api.parameters, FirstPublic(api, api.parameters, name).value);
    }
  }

  lemma MissingIff(api: Api, checker: string -> bool, name: string)
    ensures name in Missing(CheckedParameters(api), checker) <==> IsMissing(api, checker, name)
  {
    CheckedDemand(api, checker, name);
    DemandedByPublicIff(api, name);
    if api.v1Parameters.Some? {
      DemandedByIff(api.v1Parameters.value, name);
    } else if api.v1BodyParameters.Some? {
      DemandedByIff(api.v1BodyParameters.value, name);
    }
  }

  /** A flat array of a query is listed under its name with the index 1 and found under every index if the API has the RPC
      style, in any case; in an API of any other style it is listed under its bare name and found under no other. */
  lemma FlatQueryArrayIsNamed(api: Api, views: seq<View>, v: View, n: nat)
    requires (forall w :: w in views <==> IsListed(api, w)) && WellNamed(views)
    requires v in views && v.Canonical?
    requires v.canonical.typ == "array" && v.canonical.paramStyle == "flat" && Folds(v.canonical.location, "query")
    requires ObjectShapeFields(v.canonical.element) == []
    ensures
      var name, isRPC := v.canonical.rawName, api.apiStyle.Some? && Folds(api.apiStyle.value, "rpc");
      && (name + (if isRPC then ".1" else ""), v) in Foreach(views, "")
      && Find(views, name) == Some(v)
      && (Find(views, name + "." + Decimal(n)) == Some(v) <==> isRPC && 1 <= n <= 9223372036854775807)
  {
    assert IsListed(api, v);
    FlatArrayIsNamed(views, v.canonical, v.resolvedPosition, v.rpcFlatArray, n);
  }

  /** The check and the list agree, whatever is assigned, exactly if the API has a V1 list of its own or its
      repeated body parameters agree with each other. */
  lemma CheckMatchesListIff(api: Api)
    ensures CheckMatchesList(api) <==> api.v1Parameters.Some? || RepeatedBodiesAgree(BodiesOf(api))
  {
    var bs := BodiesOf(api);
    if api.v1Parameters.Some? || RepeatedBodiesAgree(bs) {
      forall checker: string -> bool, name: string
        ensures ReportsAsListed(api, checker, name)
      {
        ListedDemand(api, name);
        CheckedDemand(api, checker, name);
        FirstIffLast(bs, name);
      }
    }
    if CheckMatchesList(api) && api.v1Parameters.None? {
      forall name | FirstNamed(bs, name).Some? && LastNamed(bs, name).Some?
        ensures BodyDemands(FirstNamed(bs, name).value) <==> BodyDemands(LastNamed(bs, name).value)
      {
        var nothingAssigned := (_: string) => false;
        assert ReportsAsListed(api, nothingAssigned, name);
        ListedDemand(api, name);
        CheckedDemand(api, nothingAssigned, name);
      }
    }
  }

  /** In particular they agree when no body parameter is repeated. */
  lemma {:induction false} DistinctBodiesAgree(bs: seq<V1Parameter>)
    requires forall i, j :: 0 <= i < j < |bs| ==> bs[i].name != bs[j].name
    ensures RepeatedBodiesAgree(bs)
  {
    forall name | FirstNamed(bs, name).Some? && LastNamed(bs, name).Some?
      ensures FirstNamed(bs, name) == LastNamed(bs, name)
    {
      OnlyOneNamed(bs, name);
    }
  }

  lemma {:induction false} OnlyOneNamed(bs: seq<V1Parameter>, name: string)
    requires forall i, j :: 0 <= i < j < |bs| ==> bs[i].name != bs[j].name
    ensures FirstNamed(bs, name) == LastNamed(bs, name)
  {
    if bs != [] {
      var init, last := bs[..|bs| - 1], bs[|bs| - 1];
      OnlyOneNamed(init, name);
      FirstIffLast(init, name);
      forall i | 0 <= i < |init|
        ensures init[i].name != last.name
      {
        assert bs[i].name != bs[|init|].name;
      }
    }
  }

  /** A repeated body parameter that is required only the second time is listed as required but never reported. */
  lemma RepeatedBodyIsNotReported(first: V1Parameter, second: V1Parameter)
    requires first.name == second.name && !BodyDemands(first) && BodyDemands(second)
    ensures !CheckMatchesList(Api(None, [], None, Some([first, second])))
  {
    var bs := [first, second];
    var api := Api(None, [], None, Some(bs));
    assert bs[..1] == [first] && [first][..0] == [];
    assert FirstNamed([first], first.name) == Some(first);
    assert FirstNamed(bs, first.name) == Some(first) && LastNamed(bs, first.name) == Some(second);
    CheckMatchesListIff(api);
  }
}
