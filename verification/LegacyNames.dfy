/**
 Legacy parameter views and their flag names: the traversal that generates a name for every
 parameter that takes a value (X, X.1, X.1.Field), and the lookup that reads a name back.
 */
module LegacyNames {
  import opened Text

  datatype TypeShape = TypeShape(typ: string, fields: seq<Field>)

  datatype Field = Field(rawName: string, typ: string, required: bool)

  datatype Parameter = Parameter(
    rawName: string, location: string, typ: string, paramStyle: string, required: bool, isWildcard: bool,
    element: Option<TypeShape>)

  datatype V1Parameter = V1Parameter(
    name: string, position: string, typ: string, paramStyle: string, required: bool, subParameters: seq<V1Parameter>)

  datatype View =
    | Canonical(canonical: Parameter, resolvedPosition: string, rpcFlatArray: bool)
    | FieldView(field: Field, topLocation: string)
    | Body(body: V1Parameter, isTopBody: bool)
    | V1(body: V1Parameter, resolvedPosition: string, isWildcard: bool)
  {
    function LegacyName(): string {
      match this
      case Canonical(p, _, _) => p.rawName
      case FieldView(f, _) => f.rawName
      case Body(b, _) => b.name
      case V1(b, _, _) => b.name
    }

    function LegacyRequired(): bool {
      match this
      case Canonical(p, _, _) => p.required
      case FieldView(f, _) => f.required
      case Body(b, _) => b.required
      case V1(b, _, _) => b.required
    }

    predicate IsRPCFlatArray() {
      Canonical? && rpcFlatArray
    }

    predicate LegacyHasChildren() {
      match this
      case Canonical(p, _, rpc) => p.typ == "array" && (p.paramStyle != "flat" || rpc) && ObjectShapeFields(p.element) != []
      case FieldView(_, _) => false
      case Body(b, _) => b.subParameters != []
      case V1(b, _, _) => b.subParameters != []
    }

    predicate IsLegacyRepeatList() {
      match this
      case Canonical(p, _, rpc) => p.typ == "array" && (p.paramStyle != "flat" || rpc) && p.paramStyle != "json"
      case FieldView(f, _) => f.typ == "array"
      case Body(b, _) => IsBodyRepeatList(b)
      case V1(b, _, _) => IsBodyRepeatList(b)
    }

    function LegacyChildren(): (children: seq<View>)
      ensures children != [] <==> LegacyHasChildren()
      ensures children != [] ==> Depths(children) < Depth()
    {
      match this
      case Canonical(p, _, _) =>
        if LegacyHasChildren() then FieldViews(ObjectShapeFields(p.element), p.location) else []
      case FieldView(_, _) => []
      case Body(b, _) => BodyViews(b.subParameters)
      case V1(b, _, _) => BodyViews(b.subParameters)
    }

    /** How many levels of children there can be below; it bounds the recursions over views. */
    function Depth(): nat {
      match this
      case Canonical(_, _, _) => 1
      case FieldView(_, _) => 0
      case Body(b, _) => V1Depth(b)
      case V1(b, _, _) => V1Depth(b)
    }
  }

  predicate IsBodyRepeatList(b: V1Parameter) {
    b.typ == "array" && b.paramStyle != "flat" && b.paramStyle != "json"
  }

  function ObjectShapeFields(shape: Option<TypeShape>): seq<Field> {
    if shape.None? || shape.value.typ != "object" then [] else shape.value.fields
  }

  function FieldViews(fields: seq<Field>, topLocation: string): (views: seq<View>)
    ensures |views| == |fields| && Depths(views) == 0
  {
    if fields == [] then [] else [FieldView(fields[0], topLocation)] + FieldViews(fields[1..], topLocation)
  }

  function BodyViews(subParameters: seq<V1Parameter>): (views: seq<View>)
    ensures |views| == |subParameters| && Depths(views) == V1Depths(subParameters)
  {
    if subParameters == [] then [] else [Body(subParameters[0], false)] + BodyViews(subParameters[1..])
  }

  function Max(a: nat, b: nat): nat {
    if a < b then b else a
  }

  function V1Depth(b: V1Parameter): nat
    decreases b, 1
  {
    1 + V1Depths(b.subParameters)
  }

  function V1Depths(bs: seq<V1Parameter>): nat
    decreases bs, 0
  {
    if bs == [] then 0 else Max(V1Depth(bs[0]), V1Depths(bs[1..]))
  }

  function Depths(views: seq<View>): nat
    decreases |views|
  {
    if views == [] then 0 else Max(views[0].Depth(), Depths(views[1..]))
  }

  // ----- Generating names -----

  /** What the traversal reports, in order. */
  function Foreach(params: seq<View>, prefix: string): seq<(string, View)>
    decreases Depths(params), |params|
  {
    if params == [] then []
    else
      var v := params[0];
      var name, children := v.LegacyName(), v.LegacyChildren();
      var reports :=
        if children != [] then Foreach(children, prefix + name + ".1.")
        else if v.IsLegacyRepeatList() then [(prefix + name + ".1", v)]
        else [(prefix + name, v)];
      reports + Foreach(params[1..], prefix)
  }

  /** What is put behind the name of a value that is listed with an index. */
  function Indexed(isList: bool): string {
    if isList then ".1" else ""
  }

  lemma ForeachOne(v: View, prefix: string)
    ensures v.LegacyChildren() == [] ==> Foreach([v], prefix) == [(prefix + v.LegacyName() + Indexed(v.IsLegacyRepeatList()), v)]
    ensures v.LegacyChildren() != [] ==> Foreach([v], prefix) == Foreach(v.LegacyChildren(), prefix + v.LegacyName() + ".1.")
  {
    assert [v][1..] == [];
    assert prefix + v.LegacyName() + "" == prefix + v.LegacyName();
  }

  lemma {:induction false} FieldNames(fields: seq<Field>, location: string, prefix: string)
    ensures |Foreach(FieldViews(fields, location), prefix)| == |fields|
    ensures forall k :: 0 <= k < |fields| ==>
      Foreach(FieldViews(fields, location), prefix)[k] ==
        (prefix + fields[k].rawName + (if fields[k].typ == "array" then ".1" else ""), FieldView(fields[k], location))
  {
    if fields != [] {
      FieldNames(fields[1..], location, prefix);
      var views := FieldViews(fields, location);
      assert views[1..] == FieldViews(fields[1..], location);
      assert views[0] == FieldView(fields[0], location) && views[0].LegacyChildren() == [];
      var name := prefix + fields[0].rawName + (if fields[0].typ == "array" then ".1" else "");
      assert prefix + fields[0].rawName + "" == prefix + fields[0].rawName;
      assert Foreach(views, prefix) == [(name, views[0])] + Foreach(views[1..], prefix);
    }
  }

  /** An array of objects is named by its fields behind an index, unless it is flat; flat arrays count only in an RPC
      query. Any other array has an index unless it is JSON text; everything else has its bare name. */
  lemma CanonicalNames(p: Parameter, position: string, rpc: bool)
    ensures
      var reports := Foreach([Canonical(p, position, rpc)], "");
      var isArray := p.typ == "array" && (p.paramStyle != "flat" || rpc);
      if isArray && p.element.Some? && p.element.value.typ == "object" && p.element.value.fields != [] then
        var fields := p.element.value.fields;
        && |reports| == |fields|
        && forall k :: 0 <= k < |fields| ==>
             reports[k] == (p.rawName + ".1." + fields[k].rawName + (if fields[k].typ == "array" then ".1" else ""),
                            FieldView(fields[k], p.location))
      else
        reports == [(p.rawName + (if isArray && p.paramStyle != "json" then ".1" else ""), Canonical(p, position, rpc))]
  {
    var v := Canonical(p, position, rpc);
    ForeachOne(v, "");
    assert "" + p.rawName == p.rawName;
    if v.LegacyHasChildren() {
      FieldNames(p.element.value.fields, p.location, p.rawName + ".1.");
    }
  }

  /** A v1 parameter with sub-parameters is named by these behind an index, whatever its type is; without any it has an
      index if it is an array that is neither flat nor JSON text. */
  lemma V1Names(b: V1Parameter, v: View, prefix: string)
    requires (v.Body? || v.V1?) && v.body == b
    ensures Foreach([v], prefix) ==
      if b.subParameters != [] then Foreach(BodyViews(b.subParameters), prefix + b.name + ".1.")
      else
        var isList := b.typ == "array" && b.paramStyle != "flat" && b.paramStyle != "json";
        [(prefix + b.name + (if isList then ".1" else ""), v)]
  {
    ForeachOne(v, prefix);
  }

  // ----- Reading names -----

  predicate IsDigits(s: string) {
    forall i :: 0 <= i < |s| ==> '0' <= s[i] <= '9'
  }

  function Value(s: string): nat
    requires IsDigits(s)
  {
    if s == [] then 0 else 10 * Value(s[..|s| - 1]) + (s[|s| - 1] as int - '0' as int)
  }

  /** A decimal number from 1 on that fits a 64-bit integer, without a sign. */
  predicate IsIndex(s: string) {
    s != [] && IsDigits(s) && 1 <= Value(s) < 0x8000_0000_0000_0000
  }

  function Decimal(n: nat): string {
    (if n < 10 then "" else Decimal(n / 10)) + [(n % 10 + '0' as int) as char]
  }

  /** The numbers that are indices, as they are usually written. */
  lemma {:induction false} DecimalIsIndexIff(n: nat)
    ensures IsDigits(Decimal(n)) && Value(Decimal(n)) == n
    ensures IsIndex(Decimal(n)) <==> 1 <= n <= 9223372036854775807
  {
    var s := Decimal(n);
    if n < 10 {
      assert s[..|s| - 1] == "";
    } else {
      DecimalIsIndexIff(n / 10);
      assert s[..|s| - 1] == Decimal(n / 10);
    }
  }

  /** A sign, a space or any other character that is no digit makes no index, nor does the empty text. */
  lemma OtherTextIsNoIndex(s: string, i: nat)
    requires s == "" || (i < |s| && !('0' <= s[i] <= '9'))
    ensures !IsIndex(s)
  {
  }

  function CountDots(s: string): nat {
    if s == [] then 0 else (if s[0] == '.' then 1 else 0) + CountDots(s[1..])
  }

  function Find(params: seq<View>, name: string): Option<View>
    decreases |name|, |params|
  {
    if params == [] then None
    else
      var v := params[0];
      var pName := v.LegacyName();
      if pName == name then Some(v)
      else if pName + "." <= name then
        var suffix := name[|pName| + 1..];
        var index := Before(suffix, '.');
        var hasField := |index| < |suffix|;
        if v.IsRPCFlatArray() && (!IsIndex(index) || (hasField && !v.LegacyHasChildren())) then None
        else
          var children := v.LegacyChildren();
          if children != [] then
            var remainder := name[|pName|..];
            if |remainder| >= 4 && CountDots(remainder) >= 2 && hasField then Find(children, suffix[|index| + 1..]) else None
          else if v.IsLegacyRepeatList() then Some(v)
          else Find(params[1..], name)
      else if v.IsLegacyRepeatList() && pName <= name && |name| >= |pName| + 2 && name[|pName|] == '.' then Some(v)
      else Find(params[1..], name)
  }

  // ----- What a name denotes -----

  /** Names are not empty and free of dots, and siblings have different names, at every level. */
  predicate WellNamed(params: seq<View>)
    decreases Depths(params), |params|
  {
    params == [] || (
      var v := params[0];
      && v.LegacyName() != "" && '.' !in v.LegacyName()
      && (forall i :: 0 < i < |params| ==> params[i].LegacyName() != v.LegacyName())
      && (v.LegacyHasChildren() ==> WellNamed(v.LegacyChildren()))
      && WellNamed(params[1..])
    )
  }

  function Composite(pName: string, index: string, child: string): string {
    pName + "." + index + "." + child
  }

  /** v has this name: its own; or, for a list without children, its own with any suffix behind a dot; or, for a
      parameter with children, its own with an index and a name of a child. Indices are checked only
      for the flat arrays of RPC queries; an index and a child's name together have at least two characters. */
  ghost predicate Names(p: View, name: string, v: View)
    decreases |name|
  {
    || (name == p.LegacyName() && v == p)
    || (!p.LegacyHasChildren() && p.IsLegacyRepeatList() && v == p && exists suffix ::
          name == p.LegacyName() + "." + suffix && (p.IsRPCFlatArray() ==> IsIndex(suffix)))
    || (p.LegacyHasChildren() && exists index, child ::
          && name == Composite(p.LegacyName(), index, child)
          && '.' !in index && |index| + |child| >= 2 && (p.IsRPCFlatArray() ==> IsIndex(index))
          && |child| < |name| && exists c :: c in p.LegacyChildren() && Names(c, child, v))
  }

  ghost predicate Denotes(params: seq<View>, name: string, v: View) {
    exists p :: p in params && Names(p, name, v)
  }

  // ----- The lookup finds what a name denotes -----

  predicate Starts(pName: string, name: string) {
    pName == name || pName + "." <= name
  }

  lemma StartsIffFirstSegment(pName: string, name: string)
    requires '.' !in pName
    ensures Starts(pName, name) <==> Before(name, '.') == pName
  {
    if Starts(pName, name) {
      BeforeOf(pName, name[|pName|..], '.');
      assert name == pName + name[|pName|..];
    }
  }

  lemma NamesStarts(p: View, name: string, v: View)
    requires Names(p, name, v)
    ensures Starts(p.LegacyName(), name)
  {
  }

  lemma {:induction false} NothingStarts(params: seq<View>, name: string)
    requires forall p :: p in params ==> !Starts(p.LegacyName(), name)
    ensures Find(params, name) == None
  {
    if params != [] {
      assert params[0] in params;
      NothingStarts(params[1..], name);
    }
  }

  lemma SuffixOf(pName: string, name: string)
    requires pName + "." <= name
    ensures name == pName + "." + name[|pName| + 1..]
    ensures name[|pName|..] == "." + name[|pName| + 1..]
  {
  }

  lemma {:induction false} CountDotsIsPositive(s: string)
    ensures CountDots(s) > 0 <==> |Before(s, '.')| < |s|
  {
    if s != [] && s[0] != '.' {
      CountDotsIsPositive(s[1..]);
    }
  }

  lemma SuffixOfComposite(pName: string, index: string, child: string)
    requires '.' !in index
    ensures
      var name := Composite(pName, index, child);
      var suffix := name[|pName| + 1..];
      && pName + "." <= name && |suffix| == |index| + 1 + |child|
      && Before(suffix, '.') == index && suffix[|index| + 1..] == child
  {
    var below := "." + child;
    BeforeOf(index, below, '.');
    ConcatIsAssociative(pName + "." + index, ".", child);
    ConcatIsAssociative(pName + ".", index, below);
    assert (pName + "." + (index + below))[|pName| + 1..] == index + below;
    assert (index + below)[|index| + 1..] == child;
  }

  lemma CompositeOfSuffix(pName: string, name: string)
    requires pName + "." <= name
    requires |Before(name[|pName| + 1..], '.')| < |name| - |pName| - 1
    ensures
      var suffix := name[|pName| + 1..];
      var index := Before(suffix, '.');
      name == Composite(pName, index, suffix[|index| + 1..])
  {
    var suffix := name[|pName| + 1..];
    var index := Before(suffix, '.');
    var child := suffix[|index| + 1..];
    SuffixOf(pName, name);
    assert suffix == index + ("." + child);
    ConcatIsAssociative(pName + ".", index, "." + child);
    ConcatIsAssociative(pName + "." + index, ".", child);
  }

  ghost predicate NamesChild(p: View, index: string, child: string, v: View) {
    '.' !in index && |index| + |child| >= 2 && (p.IsRPCFlatArray() ==> IsIndex(index)) && Denotes(p.LegacyChildren(), child, v)
  }

  /** A parameter with children: the name splits into an index and the rest in one way only. */
  lemma NamesBelow(p: View, name: string, v: View)
    requires p.LegacyHasChildren() && p.LegacyName() + "." <= name
    ensures
      var suffix := name[|p.LegacyName()| + 1..];
      var index := Before(suffix, '.');
      Names(p, name, v) <==> |index| < |suffix| && NamesChild(p, index, suffix[|index| + 1..], v)
  {
    var pName := p.LegacyName();
    var suffix := name[|pName| + 1..];
    var index := Before(suffix, '.');
    if Names(p, name, v) {
      SplitOfName(p, name, v);
    } else if |index| < |suffix| && NamesChild(p, index, suffix[|index| + 1..], v) {
      CompositeOfSuffix(pName, name);
      NamesOfChild(p, index, suffix[|index| + 1..], v);
    }
  }

  lemma SplitOfName(p: View, name: string, v: View)
    requires p.LegacyHasChildren() && p.LegacyName() + "." <= name && Names(p, name, v)
    ensures
      var suffix := name[|p.LegacyName()| + 1..];
      var index := Before(suffix, '.');
      |index| < |suffix| && NamesChild(p, index, suffix[|index| + 1..], v)
  {
    var i, c := ChildOfName(p, name, v);
    SuffixOfComposite(p.LegacyName(), i, c);
  }

  lemma ChildOfName(p: View, name: string, v: View) returns (index: string, child: string)
    requires p.LegacyHasChildren() && p.LegacyName() + "." <= name && Names(p, name, v)
    ensures name == Composite(p.LegacyName(), index, child) && NamesChild(p, index, child, v)
  {
    index, child :|
      && name == Composite(p.LegacyName(), index, child) && '.' !in index && |index| + |child| >= 2
      && (p.IsRPCFlatArray() ==> IsIndex(index))
      && |child| < |name| && exists q :: q in p.LegacyChildren() && Names(q, child, v);
  }

  lemma NamesOfChild(p: View, index: string, child: string, v: View)
    requires p.LegacyHasChildren() && NamesChild(p, index, child, v)
    ensures Names(p, Composite(p.LegacyName(), index, child), v)
  {
    var name := Composite(p.LegacyName(), index, child);
    assert |name| == |p.LegacyName()| + 2 + |index| + |child|;
  }

  lemma NamesWithoutChildren(p: View, name: string, v: View)
    requires !p.LegacyHasChildren() && p.LegacyName() + "." <= name
    ensures Names(p, name, v) <==>
      v == p && p.IsLegacyRepeatList() && (p.IsRPCFlatArray() ==> IsIndex(name[|p.LegacyName()| + 1..]))
  {
    SuffixOf(p.LegacyName(), name);
    var suffix := name[|p.LegacyName()| + 1..];
    if Names(p, name, v) {
      var s :| name == p.LegacyName() + "." + s && (p.IsRPCFlatArray() ==> IsIndex(s));
      assert s == suffix;
    }
  }

  /** An index has no dot, so a flat array without children takes one index and nothing behind it. */
  lemma IndexHasNoDot(suffix: string)
    ensures IsIndex(suffix) <==> IsIndex(Before(suffix, '.')) && |Before(suffix, '.')| == |suffix|
  {
    var index := Before(suffix, '.');
    if |index| < |suffix| {
      assert suffix[|index|] == '.';
    } else {
      assert index == suffix;
    }
  }

  ghost predicate FindAgrees(params: seq<View>, name: string, v: View) {
    Find(params, name) == Some(v) <==> Denotes(params, name, v)
  }

  /** The lookup returns a view exactly if the name denotes it. */
  lemma {:induction false} FindIffDenotes(params: seq<View>, name: string, v: View)
    requires WellNamed(params)
    ensures FindAgrees(params, name, v)
    decreases |name|, |params|
  {
    if params != [] {
      var p, rest := params[0], params[1..];
      DenotesUnfolds(p, rest, name, v);
      assert params == [p] + rest;
      if Starts(p.LegacyName(), name) {
        OnlyHeadStarts(params, name, v);
        if p.LegacyName() == name {
          OwnNameOnly(p, v);
        } else {
          FindBelow(p, rest, name, v);
        }
      } else {
        if Names(p, name, v) {
          NamesStarts(p, name, v);
        }
        FindIffDenotes(rest, name, v);
      }
    }
  }

  lemma DenotesUnfolds(p: View, rest: seq<View>, name: string, v: View)
    ensures Denotes([p] + rest, name, v) <==> Names(p, name, v) || Denotes(rest, name, v)
  {
    var params := [p] + rest;
    assert forall q :: q in params <==> q == p || q in rest;
  }

  lemma OnlyHeadStarts(params: seq<View>, name: string, v: View)
    requires WellNamed(params) && params != [] && Starts(params[0].LegacyName(), name)
    ensures Find(params[1..], name) == None
    ensures !Denotes(params[1..], name, v)
  {
    forall q | q in params[1..]
      ensures !Starts(q.LegacyName(), name) && !Names(q, name, v)
    {
      NoOtherStarts(params, q, name);
      if Names(q, name, v) {
        NamesStarts(q, name, v);
      }
    }
    NothingStarts(params[1..], name);
  }

  lemma OwnNameOnly(p: View, v: View)
    ensures Names(p, p.LegacyName(), v) <==> v == p
  {
    var name := p.LegacyName();
    forall suffix
      ensures name + "." + suffix != name
    {
      assert |name + "." + suffix| > |name|;
    }
    forall index, child
      ensures Composite(name, index, child) != name
    {
      assert |Composite(name, index, child)| > |name|;
    }
  }

  lemma {:induction false} NoOtherStarts(params: seq<View>, q: View, name: string)
    requires WellNamed(params) && params != [] && q in params[1..]
    requires Starts(params[0].LegacyName(), name)
    ensures !Starts(q.LegacyName(), name)
  {
    WellNamedMember(params[1..], q);
    var i :| 0 <= i < |params[1..]| && params[1..][i] == q;
    assert params[i + 1] == q;
    StartsIffFirstSegment(params[0].LegacyName(), name);
    StartsIffFirstSegment(q.LegacyName(), name);
  }

  lemma {:induction false} WellNamedMember(params: seq<View>, v: View)
    requires WellNamed(params) && v in params
    ensures v.LegacyName() != "" && '.' !in v.LegacyName()
    ensures v.LegacyHasChildren() ==> WellNamed(v.LegacyChildren())
    decreases |params|
  {
    if v != params[0] {
      WellNamedMember(params[1..], v);
    }
  }

  lemma FindBelow(p: View, rest: seq<View>, name: string, v: View)
    requires WellNamed([p] + rest) && Find(rest, name) == None
    requires p.LegacyName() != name && p.LegacyName() + "." <= name
    ensures Find([p] + rest, name) == Some(v) <==> Names(p, name, v)
    decreases |name|, |rest|, 0
  {
    var pName, params := p.LegacyName(), [p] + rest;
    assert params[0] == p && params[1..] == rest;
    SuffixOf(pName, name);
    var suffix := name[|pName| + 1..];
    var index := Before(suffix, '.');
    if p.LegacyHasChildren() {
      NamesBelow(p, name, v);
      CountDotsIsPositive(suffix);
      assert CountDots(name[|pName|..]) == 1 + CountDots(suffix) by {
        assert name[|pName|..][1..] == suffix;
      }
      if |index| < |suffix| {
        FindIffDenotes(p.LegacyChildren(), suffix[|index| + 1..], v);
      }
    } else {
      NamesWithoutChildren(p, name, v);
      IndexHasNoDot(suffix);
    }
  }

  // ----- Generated names are read back -----

  /** A view is reported under a name behind a prefix. */
  ghost predicate Reported(params: seq<View>, prefix: string, name: string, v: View) {
    (name, v) in Foreach(params, prefix)
  }

  ghost predicate ReportedBy(p: View, prefix: string, name: string, v: View) {
    if p.LegacyHasChildren() then Reported(p.LegacyChildren(), prefix + p.LegacyName() + ".1.", name, v)
    else v == p && name == if p.IsLegacyRepeatList() then prefix + p.LegacyName() + ".1" else prefix + p.LegacyName()
  }

  lemma ReportedUnfolds(params: seq<View>, prefix: string, name: string, v: View)
    requires params != []
    ensures Reported(params, prefix, name, v) <==>
      ReportedBy(params[0], prefix, name, v) || Reported(params[1..], prefix, name, v)
  {
  }

  /** Behind its prefix, every generated name denotes the view it was generated for. */
  lemma {:induction false} GeneratedNameDenotes(params: seq<View>, prefix: string, name: string, v: View) returns (rest: string)
    requires WellNamed(params) && Reported(params, prefix, name, v)
    ensures name == prefix + rest && rest != "" && Denotes(params, rest, v)
    decreases Depths(params), |params|
  {
    var p := params[0];
    var pName := p.LegacyName();
    ReportedUnfolds(params, prefix, name, v);
    if Reported(params[1..], prefix, name, v) {
      rest := GeneratedNameDenotes(params[1..], prefix, name, v);
    } else if p.LegacyHasChildren() {
      var child := GeneratedNameDenotes(p.LegacyChildren(), prefix + pName + ".1.", name, v);
      rest := Composite(pName, "1", child);
      CompositeBehindPrefix(prefix, pName, child);
      OneIsIndex();
      NamesOfChild(p, "1", child, v);
      assert p in params;
    } else {
      rest := if p.IsLegacyRepeatList() then pName + "." + "1" else pName;
      IndexBehindPrefix(prefix, pName);
      OneIsIndex();
      assert Names(p, rest, v) && p in params;
    }
  }

  lemma CompositeBehindPrefix(prefix: string, pName: string, child: string)
    ensures prefix + pName + ".1." + child == prefix + Composite(pName, "1", child)
  {
  }

  lemma IndexBehindPrefix(prefix: string, pName: string)
    ensures prefix + pName + ".1" == prefix + (pName + "." + "1")
  {
  }

  lemma OneIsIndex()
    ensures IsIndex("1")
  {
    assert "1"[..0] == "";
  }

  /** Round trip: whatever name the traversal generates, at any depth, the lookup resolves it to the same view. */
  lemma GeneratedNameIsFound(params: seq<View>, name: string, v: View)
    requires WellNamed(params) && (name, v) in Foreach(params, "")
    ensures Find(params, name) == Some(v)
  {
    var rest := GeneratedNameDenotes(params, "", name, v);
    assert "" + rest == rest;
    FindIffDenotes(params, name, v);
  }

  /** Whether the name of a parameter with a bare dot behind it is taken for the parameter. */
  predicate TakesEmptySuffix(p: View) {
    !p.LegacyHasChildren() && p.IsLegacyRepeatList() && !p.IsRPCFlatArray()
  }

  lemma {:induction false} StartsOnlyOne(params: seq<View>, p: View, q: View, name: string)
    requires WellNamed(params) && p in params && q in params
    requires Starts(p.LegacyName(), name) && Starts(q.LegacyName(), name)
    ensures p == q
  {
    assert params == [params[0]] + params[1..];
    if p != params[0] && q != params[0] {
      StartsOnlyOne(params[1..], p, q, name);
    } else if p != q {
      NoOtherStarts(params, if p == params[0] then q else p, name);
    }
  }

  lemma {:induction false} LeafIsReported(params: seq<View>, v: View)
    requires v in params && !v.LegacyHasChildren()
    ensures Reported(params, "", v.LegacyName() + Indexed(v.IsLegacyRepeatList()), v)
  {
    ReportedUnfolds(params, "", v.LegacyName() + Indexed(v.IsLegacyRepeatList()), v);
    if v == params[0] {
      assert "" + v.LegacyName() == v.LegacyName() == v.LegacyName() + "";
    } else {
      LeafIsReported(params[1..], v);
    }
  }

  lemma SuffixOfLeafIff(params: seq<View>, v: View, suffix: string)
    requires WellNamed(params) && v in params && !v.LegacyHasChildren()
    ensures Find(params, v.LegacyName() + "." + suffix) == Some(v) <==>
      v.IsLegacyRepeatList() && (v.IsRPCFlatArray() ==> IsIndex(suffix))
  {
    var name := v.LegacyName() + "." + suffix;
    assert Starts(v.LegacyName(), name) && name[|v.LegacyName()| + 1..] == suffix;
    NamesWithoutChildren(v, name, v);
    OnlyStarts(params, v, name);
    FindIffDenotes(params, name, v);
  }

  /** Only the parameter that the name starts with can have it. */
  lemma OnlyStarts(params: seq<View>, v: View, name: string)
    requires WellNamed(params) && v in params && Starts(v.LegacyName(), name)
    ensures Denotes(params, name, v) <==> Names(v, name, v)
  {
    forall q | q in params && Names(q, name, v)
      ensures q == v
    {
      NamesStarts(q, name, v);
      StartsOnlyOne(params, v, q, name);
    }
  }

  /** A flat array without fields: in an RPC query it is listed with the index 1 and found under every index; elsewhere
      it is listed under its bare name, and found under no other. */
  lemma FlatArrayIsNamed(params: seq<View>, p: Parameter, position: string, rpc: bool, n: nat)
    requires WellNamed(params) && Canonical(p, position, rpc) in params
    requires p.typ == "array" && p.paramStyle == "flat"
    requires p.element.None? || p.element.value.typ != "object" || p.element.value.fields == []
    ensures
      var v := Canonical(p, position, rpc);
      && (p.rawName + (if rpc then ".1" else ""), v) in Foreach(params, "")
      && Find(params, p.rawName) == Some(v)
      && (Find(params, p.rawName + "." + Decimal(n)) == Some(v) <==> rpc && 1 <= n <= 9223372036854775807)
  {
    var v := Canonical(p, position, rpc);
    LeafIsReported(params, v);
    assert Reported(params, "", p.rawName + (if rpc then ".1" else ""), v);
    DecimalIsIndexIff(n);
    SuffixOfLeafIff(params, v, Decimal(n));
    OwnNameOnly(v, v);
    assert Denotes(params, p.rawName, v);
    FindIffDenotes(params, p.rawName, v);
  }

  /** Documented is a suffix that is not empty. The lookup takes the empty one, among any well-named parameters, exactly
      for lists without children that are not flat RPC arrays. */
  lemma EmptySuffixIsAcceptedIff(params: seq<View>, p: View)
    requires WellNamed(params) && p in params
    ensures Find(params, p.LegacyName() + ".") == Some(p) <==> TakesEmptySuffix(p)
  {
    var name := p.LegacyName() + ".";
    if p.LegacyHasChildren() {
      assert Starts(p.LegacyName(), name) && name[|p.LegacyName()| + 1..] == "";
      NamesBelow(p, name, p);
      OnlyStarts(params, p, name);
      FindIffDenotes(params, name, p);
    } else {
      assert p.LegacyName() + "." + "" == name;
      SuffixOfLeafIff(params, p, "");
    }
  }

  /** For one parameter that holds whatever its name is. */
  lemma EmptySuffixOfOne(p: View)
    ensures Find([p], p.LegacyName() + ".") == Some(p) <==> TakesEmptySuffix(p)
  {
    var name := p.LegacyName() + ".";
    assert name[|p.LegacyName()|..] == "." && name[|p.LegacyName()| + 1..] == "";
    assert [p][1..] == [];
  }
}
