/**
 The two projections of an API's response metadata: `ResponseSchema` picks the body schema of one
 successful response, `ResponseSection` keeps all responses; both come with the component schemas
 they reach and with warnings.
 */
module ResponseSchema {
  import opened Text
  import opened References
  import opened SchemaSearch

  /** Encoded metadata fields, decoded; None is an absent field. */
  datatype Api = Api(responses: Option<Json>, components: Option<Json>)

  datatype Field = Responses | ComponentsField

  datatype Result<+T> = Ok(value: T) | Malformed(field: Field)

  datatype SchemaDocument = SchemaDocument(
    statusCode: string, contentType: string, schema: Option<Json>, components: map<string, Json>, warnings: seq<Warning>)

  datatype SectionDocument = SectionDocument(
    responses: Option<Json>, components: map<string, Json>, warnings: seq<Warning>)

  const EMPTY_SCHEMA := SchemaDocument("", "", None, map[], [])

  predicate HasJSONValue(value: Option<Json>) {
    value.Some? && value.value != Null
  }

  /** Decoding into a string-keyed map: null gives an empty one, anything but an object fails. */
  function DecodeMap(value: Json): Option<map<string, Json>> {
    match value
    case Object(members) => Some(members)
    case Null => Some(map[])
    case _ => None
  }

  function Member(members: map<string, Json>, key: string): Option<Json> {
    if key in members then Some(members[key]) else None
  }

  datatype Response = Response(content: map<string, Json>, schema: Option<Json>)

  function DecodeResponse(value: Json): Option<Response> {
    var members := DecodeMap(value);
    if members.None? then None
    else
      var content := Member(members.value, "content");
      var decoded := if content.None? then Some(map[]) else DecodeMap(content.value);
      if decoded.None? then None else Some(Response(decoded.value, Member(members.value, "schema")))
  }

  // ----- Selecting a response and its schema -----

  predicate IsDigit(c: char) {
    '0' <= c <= '9'
  }

  /** A three-digit 2xx code other than 200. */
  predicate IsOtherSuccess(status: string) {
    |status| == 3 && status[0] == '2' && IsDigit(status[1]) && IsDigit(status[2]) && status != "200"
  }

  function Code(status: string): int
    requires |status| == 3
  {
    (status[0] as int - '0' as int) * 100 + (status[1] as int - '0' as int) * 10 + (status[2] as int - '0' as int)
  }

  function SelectSuccessfulResponse(responses: map<string, Json>): Option<(string, Json)> {
    if "200" in responses then Some(("200", responses["200"]))
    else
      var successful := SortedKeys(set status | status in responses && IsOtherSuccess(status));
      if successful != [] then
        assert successful[0] in successful;
        Some((successful[0], responses[successful[0]]))
      else if "default" in responses then Some(("default", responses["default"]))
      else None
  }

  /** The chosen response is the one for 200, else the lowest other success code, else the default. */
  lemma SelectedResponseIsBest(responses: map<string, Json>, status: string)
    requires status in responses
    ensures
      var selected := SelectSuccessfulResponse(responses);
      && (status == "200" ==> selected == Some((status, responses[status])))
      && (IsOtherSuccess(status) && "200" !in responses ==>
            && selected.Some? && IsOtherSuccess(selected.value.0) && Code(selected.value.0) <= Code(status)
            && Member(responses, selected.value.0) == Some(selected.value.1))
      && (status == "default" && "200" !in responses && (forall s :: s in responses ==> !IsOtherSuccess(s)) ==>
            selected == Some((status, responses[status])))
  {
    if IsOtherSuccess(status) && "200" !in responses {
      var successful := SortedKeys(set s | s in responses && IsOtherSuccess(s));
      assert status in successful && successful[0] in successful;
      if successful[0] != status {
        assert Less(successful[0], status);
        LessOnDigits(successful[0], status);
      }
    }
  }

  lemma LessOnDigits(a: string, b: string)
    requires IsOtherSuccess(a) && IsOtherSuccess(b) && Less(a, b)
    ensures Code(a) < Code(b)
  {
    assert a[1..][1..] == [a[2]] && b[1..][1..] == [b[2]];
    assert Less(a[1..], b[1..]);
    if a[1] == b[1] {
      assert Less([a[2]], [b[2]]);
      assert [a[2]][1..] == [b[2]][1..] == [];
      assert !Less([a[2]][1..], [b[2]][1..]);
      assert [a[2]][0] < [b[2]][0];
    }
  }

  function ContentTypeRank(contentType: string): nat {
    if contentType == "application/json" then 0
    else if "application/" <= contentType && HasSuffix(contentType, "+json") then 1
    else 2
  }

  predicate HasSuffix(s: string, suffix: string) {
    |suffix| <= |s| && s[|s| - |suffix|..] == suffix
  }

  function OfRank(content: map<string, Json>, rank: nat): set<string> {
    set t | t in content && ContentTypeRank(t) == rank
  }

  /** Content types by rank, those of one rank by name. */
  function ContentTypesInOrder(content: map<string, Json>): seq<string> {
    SortedKeys(OfRank(content, 0)) + SortedKeys(OfRank(content, 1)) + SortedKeys(OfRank(content, 2))
  }

  ghost predicate Precedes(a: string, b: string) {
    ContentTypeRank(a) < ContentTypeRank(b) || (ContentTypeRank(a) == ContentTypeRank(b) && Less(a, b))
  }

  lemma ContentTypesAreOrdered(content: map<string, Json>)
    ensures
      var types := ContentTypesInOrder(content);
      && (forall t :: t in types <==> t in content)
      && (forall i, j :: 0 <= i < j < |types| ==> Precedes(types[i], types[j]))
  {
    var a, b, c := SortedKeys(OfRank(content, 0)), SortedKeys(OfRank(content, 1)), SortedKeys(OfRank(content, 2));
    var types := a + b + c;
    forall t
      ensures t in types <==> t in a || t in b || t in c
    {
    }
    forall i, j | 0 <= i < j < |types|
      ensures Precedes(types[i], types[j])
    {
      var x, y := types[i], types[j];
      assert x in (if i < |a| then a else if i < |a| + |b| then b else c);
      assert y in (if j < |a| then a else if j < |a| + |b| then b else c);
    }
  }

  /** The schema of the first media type that has one. A media type that cannot be decoded before one is
      found is an error. */
  function FirstMediaSchema(content: map<string, Json>, types: seq<string>): Option<Option<(Json, string)>>
    requires forall t :: t in types ==> t in content
  {
    if types == [] then Some(None)
    else
      var media := DecodeMap(content[types[0]]);
      if media.None? then None
      else
        var schema := Member(media.value, "schema");
        if HasJSONValue(schema) then Some(Some((schema.value, types[0])))
        else FirstMediaSchema(content, types[1..])
  }

  /** Without a schema by content type, the response may have one itself. */
  function WithFallback(found: Option<Option<(Json, string)>>, schema: Option<Json>): Option<Option<(Json, string)>> {
    if found.None? || found.value.Some? then found
    else if HasJSONValue(schema) then Some(Some((schema.value, "")))
    else Some(None)
  }

  /** The schema and its content type; an inner None is a response without schema, an outer None an error. */
  function SelectResponseBodySchema(response: Response): Option<Option<(Json, string)>> {
    ContentTypesAreOrdered(response.content);
    WithFallback(FirstMediaSchema(response.content, ContentTypesInOrder(response.content)), response.schema)
  }

  function DecodeComponentSchemas(components: Option<Json>): Option<map<string, Json>> {
    if !HasJSONValue(components) then Some(map[])
    else
      var members := DecodeMap(components.value);
      if members.None? then None
      else
        var schemas := Member(members.value, "schemas");
        if schemas.None? then Some(map[]) else DecodeMap(schemas.value)
  }

  // ----- The projections -----

  function ResponseSchema(api: Api): Result<SchemaDocument> {
    var selected := SelectedBody(api);
    if selected.Malformed? || selected.value.schema.None? then selected
    else
      var closure := CloseOver(api, selected.value.schema.value);
      if closure.None? then Malformed(ComponentsField)
      else Ok(selected.value.(components := closure.value.reachable, warnings := FirstSeen(closure.value.log)))
  }

  /** The document without its components and warnings. */
  function SelectedBody(api: Api): Result<SchemaDocument> {
    if !HasJSONValue(api.responses) then Ok(EMPTY_SCHEMA)
    else
      var responses := DecodeMap(api.responses.value);
      if responses.None? then Malformed(Responses)
      else
        var selected := SelectSuccessfulResponse(responses.value);
        if selected.None? then Ok(EMPTY_SCHEMA)
        else
          var response := DecodeResponse(selected.value.1);
          if response.None? then Malformed(Responses)
          else
            var body := SelectResponseBodySchema(response.value);
            if body.None? then Malformed(Responses)
            else if body.value.None? then Ok(EMPTY_SCHEMA.(statusCode := selected.value.0))
            else
              var (schema, contentType) := body.value.value;
              Ok(SchemaDocument(selected.value.0, contentType, Some(schema), map[], []))
  }

  function ResponseSection(api: Api): Result<SectionDocument> {
    if !HasJSONValue(api.responses) then Ok(SectionDocument(None, map[], []))
    else if DecodeMap(api.responses.value).None? then Malformed(Responses)
    else
      var closure := CloseOver(api, api.responses.value);
      if closure.None? then Malformed(ComponentsField)
      else Ok(SectionDocument(api.responses, closure.value.reachable, FirstSeen(closure.value.log)))
  }

  /** The closure of one tree; component schemas are decoded only if the tree refers to any. */
  function CloseOver(api: Api, tree: Json): Option<Progress> {
    var root := ComponentOf(tree);
    if root.refs == [] then Some(Start(root))
    else
      var definitions := DecodeComponentSchemas(api.components);
      if definitions.None? then None else Some(Close(Components(definitions.value), root))
  }

  // ----- The projections as they run -----

  /** Runs the search over the references of the tree. */
  method FollowReferences(api: Api, tree: Json) returns (closure: Option<(map<string, Json>, seq<Warning>)>)
    ensures closure.Some? <==> CloseOver(api, tree).Some?
    ensures closure.Some? ==>
      closure.value == (CloseOver(api, tree).value.reachable, FirstSeen(CloseOver(api, tree).value.log))
  {
    var root := ComponentOf(tree);
    var warnings := new WarningCollector();
    warnings.AddAll(root.refWarnings);
    assert warnings.added == root.refWarnings;
    var components: map<string, Json> := map[];
    if root.refs != [] {
      var definitions := DecodeComponentSchemas(api.components);
      if definitions.None? {
        return None;
      }
      var search := new Search(Components(definitions.value), warnings);
      search.VisitAll(root.refs);
      components := search.reachable;
    }
    var values := warnings.Values();
    closure := Some((components, values));
  }

  method ProjectResponseSchema(api: Api) returns (r: Result<SchemaDocument>)
    ensures r == ResponseSchema(api)
  {
    r := SelectedBody(api);
    if r.Malformed? || r.value.schema.None? {
      return;
    }
    var closure := FollowReferences(api, r.value.schema.value);
    if closure.None? {
      return Malformed(ComponentsField);
    }
    r := Ok(r.value.(components := closure.value.0, warnings := closure.value.1));
  }

  method ProjectResponseSection(api: Api) returns (r: Result<SectionDocument>)
    ensures r == ResponseSection(api)
  {
    if !HasJSONValue(api.responses) {
      return Ok(SectionDocument(None, map[], []));
    }
    if DecodeMap(api.responses.value).None? {
      return Malformed(Responses);
    }
    var closure := FollowReferences(api, api.responses.value);
    if closure.None? {
      return Malformed(ComponentsField);
    }
    return Ok(SectionDocument(api.responses, closure.value.0, closure.value.1));
  }

  // ----- What the projections contain -----

  lemma {:induction false} MediaSchemaIsMember(content: map<string, Json>, types: seq<string>)
    requires forall t :: t in types ==> t in content
    requires FirstMediaSchema(content, types).Some? && FirstMediaSchema(content, types).value.Some?
    ensures
      var (schema, t) := FirstMediaSchema(content, types).value.value;
      t in content && content[t].Object? && Member(content[t].members, "schema") == Some(schema)
  {
    var schema := Member(DecodeMap(content[types[0]]).value, "schema");
    if !HasJSONValue(schema) {
      MediaSchemaIsMember(content, types[1..]);
    }
  }

  /** The selected schema is a part of the responses tree. */
  lemma SelectedSchemaIsPart(api: Api)
    requires ResponseSchema(api).Ok? && ResponseSchema(api).value.schema.Some?
    ensures api.responses.Some? && Contains(api.responses.value, ResponseSchema(api).value.schema.value)
  {
    var tree := api.responses.value;
    var selected := SelectSuccessfulResponse(tree.members);
    var response := selected.value.1;
    assert response in tree.members.Values by {
      assert selected.value.0 in tree.members;
    }
    var decoded := DecodeResponse(response).value;
    var (schema, contentType) := SelectResponseBodySchema(decoded).value.value;
    ContentTypesAreOrdered(decoded.content);
    var found := FirstMediaSchema(decoded.content, ContentTypesInOrder(decoded.content));
    if found.value.Some? {
      MediaSchemaIsMember(decoded.content, ContentTypesInOrder(decoded.content));
      var media := decoded.content[contentType];
      assert Contains(media, media.members["schema"]);
      assert Contains(response.members["content"], schema);
      assert Contains(response, schema);
    } else {
      assert Contains(response, response.members["schema"]);
    }
    assert Contains(tree, schema);
  }

  // ----- What is selected, said of the metadata itself -----

  /** A three-digit code from 201 to 299. */
  predicate IsSuccessCode(status: string) {
    |status| == 3 && status[0] == '2' && '0' <= status[1] <= '9' && '0' <= status[2] <= '9' && !(status[1] == status[2] == '0')
  }

  predicate IsNoGreater(a: string, b: string)
    requires IsSuccessCode(a) && IsSuccessCode(b)
  {
    a[1] < b[1] || (a[1] == b[1] && a[2] <= b[2])
  }

  /** 200 is preferred to the other success codes, the smallest of them to the default; there may be none of these. */
  ghost predicate IsBestStatus(codes: set<string>, status: string) {
    if "200" in codes then status == "200"
    else if exists s :: s in codes && IsSuccessCode(s) then
      status in codes && IsSuccessCode(status) && forall s :: s in codes && IsSuccessCode(s) ==> IsNoGreater(status, s)
    else if "default" in codes then status == "default"
    else status == ""
  }

  predicate IsJSONSuffixed(contentType: string) {
    && "application/" <= contentType
    && |contentType| >= |"+json"| && contentType[|contentType| - |"+json"|..] == "+json"
  }

  /** application/json comes first, then the application types that end in +json, then the others; within a group the
      order is alphabetical. */
  predicate IsTriedBefore(a: string, b: string) {
    if a == "application/json" || b == "application/json" then a == "application/json" && b != "application/json"
    else if IsJSONSuffixed(a) != IsJSONSuffixed(b) then IsJSONSuffixed(a)
    else Less(a, b)
  }

  lemma PrecedesIffTriedBefore(a: string, b: string)
    ensures Precedes(a, b) <==> IsTriedBefore(a, b)
    ensures !(Precedes(a, b) && Precedes(b, a))
  {
    LessIsAsymmetric(a, b);
    LessIsAsymmetric(a, a);
  }

  predicate IsObjectOrNull(value: Json) {
    value.Object? || value.Null?
  }

  /** A media type without a schema, or with null for it. */
  predicate HasNoSchema(media: Json) {
    media == Null || (media.Object? && ("schema" !in media.members || media.members["schema"] == Null))
  }

  predicate HasSchema(media: Json, schema: Json) {
    media.Object? && "schema" in media.members && media.members["schema"] == schema != Null
  }

  ghost predicate NoneTriedBefore(content: map<string, Json>, contentType: string) {
    forall t :: t in content && IsTriedBefore(t, contentType) ==> HasNoSchema(content[t])
  }

  /** The schema of the first content type that has one. */
  ghost predicate IsFirstSchema(content: map<string, Json>, contentType: string, schema: Json) {
    contentType in content && HasSchema(content[contentType], schema) && NoneTriedBefore(content, contentType)
  }

  ghost predicate NoneHasSchema(content: map<string, Json>) {
    forall t :: t in content ==> HasNoSchema(content[t])
  }

  /** A content type cannot be read, and none is tried before it that has a schema. */
  ghost predicate IsUnreadable(content: map<string, Json>) {
    exists t :: t in content && !IsObjectOrNull(content[t]) && NoneTriedBefore(content, t)
  }

  lemma {:induction false} FirstMediaSchemaIsFirst(content: map<string, Json>, types: seq<string>) returns (i: nat)
    requires forall t :: t in types ==> t in content
    ensures i <= |types| && forall j :: 0 <= j < i ==> HasNoSchema(content[types[j]])
    ensures
      match FirstMediaSchema(content, types)
      case None => i < |types| && !IsObjectOrNull(content[types[i]])
      case Some(None) => i == |types|
      case Some(Some(found)) => i < |types| && types[i] == found.1 && HasSchema(content[found.1], found.0)
  {
    i := 0;
    if types != [] && HasNoSchema(content[types[0]]) {
      var k := FirstMediaSchemaIsFirst(content, types[1..]);
      i := k + 1;
      assert forall j :: 0 < j < i ==> types[j] == types[1..][j - 1];
    }
  }

  lemma TypesBefore(content: map<string, Json>, types: seq<string>, i: nat)
    requires (forall t :: t in types <==> t in content) && i < |types|
    requires forall j, k :: 0 <= j < k < |types| ==> Precedes(types[j], types[k])
    requires forall j :: 0 <= j < i ==> HasNoSchema(content[types[j]])
    ensures NoneTriedBefore(content, types[i])
  {
    forall t | t in content && IsTriedBefore(t, types[i])
      ensures HasNoSchema(content[t])
    {
      var j :| 0 <= j < |types| && types[j] == t;
      PrecedesIffTriedBefore(t, types[i]);
      assert j < i;
    }
  }

  /** The first schema in the order of content types, no schema, or an unreadable content type. */
  lemma MediaSchemaIsFirst(content: map<string, Json>)
    requires forall t :: t in ContentTypesInOrder(content) ==> t in content
    ensures
      match FirstMediaSchema(content, ContentTypesInOrder(content))
      case None => IsUnreadable(content)
      case Some(None) => NoneHasSchema(content) && !IsUnreadable(content)
      case Some(Some(found)) => IsFirstSchema(content, found.1, found.0) && !IsUnreadable(content)
  {
    var types := ContentTypesInOrder(content);
    ContentTypesAreOrdered(content);
    var i := FirstMediaSchemaIsFirst(content, types);
    if i < |types| {
      TypesBefore(content, types, i);
      if HasSchemaValue(content[types[i]]) {
        FirstSchemaIsRead(content, types[i]);
      }
    }
  }

  predicate HasSchemaValue(media: Json) {
    media.Object? && "schema" in media.members && media.members["schema"] != Null
  }

  /** What cannot be read is not tried before the first schema is found. */
  lemma FirstSchemaIsRead(content: map<string, Json>, contentType: string)
    requires contentType in content && HasSchemaValue(content[contentType]) && NoneTriedBefore(content, contentType)
    ensures !IsUnreadable(content)
  {
    forall t | t in content && !IsObjectOrNull(content[t])
      ensures !NoneTriedBefore(content, t)
    {
      TriedBeforeIsTotal(t, contentType);
      assert !HasNoSchema(content[contentType]);
    }
  }

  lemma TriedBeforeIsTotal(a: string, b: string)
    ensures a == b || IsTriedBefore(a, b) || IsTriedBefore(b, a)
  {
    LessIsTotal(a, b);
  }

  function MembersOf(value: Json): map<string, Json> {
    if value.Object? then value.members else map[]
  }

  function ContentOf(response: Json): map<string, Json> {
    if "content" in MembersOf(response) then MembersOf(MembersOf(response)["content"]) else map[]
  }

  /** The response and its content are objects, if they are there, and so are the content types that are tried. */
  ghost predicate IsReadable(response: Json) {
    && IsObjectOrNull(response)
    && ("content" in MembersOf(response) ==> IsObjectOrNull(MembersOf(response)["content"]))
    && !IsUnreadable(ContentOf(response))
  }

  /** The schema of the first content type that has one, else the schema of the response itself, if it has one. */
  ghost predicate IsBodyOf(response: Json, contentType: string, schema: Option<Json>) {
    match schema
    case Some(s) =>
      || IsFirstSchema(ContentOf(response), contentType, s)
      || (contentType == "" && NoneHasSchema(ContentOf(response)) && HasSchema(response, s))
    case None => contentType == "" && NoneHasSchema(ContentOf(response)) && HasNoSchema(response)
  }

  lemma BestStatusIsSelected(responses: map<string, Json>) returns (status: string)
    ensures IsBestStatus(responses.Keys, status)
    ensures SelectSuccessfulResponse(responses) ==
      if status in responses && status != "" then Some((status, responses[status])) else None
  {
    var selected := SelectSuccessfulResponse(responses);
    status := if selected.Some? then selected.value.0 else "";
    forall s | s in responses && IsSuccessCode(s) && "200" !in responses
      ensures selected.Some? && IsSuccessCode(status) && IsNoGreater(status, s)
    {
      SelectedResponseIsBest(responses, s);
    }
    if "default" in responses {
      SelectedResponseIsBest(responses, "default");
    }
  }

  lemma ContentIsDecoded(response: Json)
    ensures DecodeResponse(response).Some? <==>
      IsObjectOrNull(response) && ("content" in MembersOf(response) ==> IsObjectOrNull(MembersOf(response)["content"]))
    ensures DecodeResponse(response).Some? ==>
      && DecodeResponse(response).value.content == ContentOf(response)
      && DecodeResponse(response).value.schema == Member(MembersOf(response), "schema")
  {
  }

  lemma BodyIsSelected(response: Json)
    ensures IsReadable(response) <==>
      DecodeResponse(response).Some? && SelectResponseBodySchema(DecodeResponse(response).value).Some?
    ensures IsReadable(response) ==>
      IsBodyFound(response, SelectResponseBodySchema(DecodeResponse(response).value).value)
  {
    ContentIsDecoded(response);
    if DecodeResponse(response).Some? {
      BodyOfContent(response, DecodeResponse(response).value);
    }
  }

  ghost predicate IsBodyFound(response: Json, found: Option<(Json, string)>) {
    match found
    case Some((schema, contentType)) => IsBodyOf(response, contentType, Some(schema))
    case None => IsBodyOf(response, "", None)
  }

  lemma FallbackIsBody(response: Json, found: Option<(Json, string)>)
    requires IsObjectOrNull(response)
    requires
      match found
      case None => NoneHasSchema(ContentOf(response))
      case Some((schema, contentType)) => IsFirstSchema(ContentOf(response), contentType, schema)
    ensures
      var selected := WithFallback(Some(found), Member(MembersOf(response), "schema"));
      selected.Some? && IsBodyFound(response, selected.value)
  {
    var schema := Member(MembersOf(response), "schema");
    if found.None? {
      if HasJSONValue(schema) {
        assert HasSchema(response, schema.value);
      } else {
        assert HasNoSchema(response);
      }
    }
  }

  lemma BodyOfContent(response: Json, decoded: Response)
    requires decoded.content == ContentOf(response) && decoded.schema == Member(MembersOf(response), "schema")
    requires IsObjectOrNull(response)
    ensures
      var selected := SelectResponseBodySchema(decoded);
      if IsUnreadable(ContentOf(response)) then selected.None? else selected.Some? && IsBodyFound(response, selected.value)
  {
    ContentTypesAreOrdered(decoded.content);
    MediaSchemaIsFirst(decoded.content);
    var found := FirstMediaSchema(decoded.content, ContentTypesInOrder(decoded.content));
    if found.Some? {
      FallbackIsBody(response, found.value);
    }
  }

  /** The projection said of the metadata: which response, which content type, which schema, and what is an error. */
  lemma SelectionIsExact(api: Api) returns (status: string)
    ensures
      var r := ResponseSchema(api);
      if api.responses.None? || api.responses.value == Null then r == Ok(SchemaDocument("", "", None, map[], []))
      else if !api.responses.value.Object? then r == Malformed(Responses)
      else
        var responses := api.responses.value.members;
        && IsBestStatus(responses.Keys, status)
        && if status == "" then r == Ok(SchemaDocument("", "", None, map[], []))
           else
             && (r == Malformed(Responses) <==> !IsReadable(responses[status]))
             && (r.Ok? ==> r.value.statusCode == status && IsBodyOf(responses[status], r.value.contentType, r.value.schema))
  {
    status := "";
    if HasJSONValue(api.responses) && api.responses.value.Object? {
      var responses := api.responses.value.members;
      status := BestStatusIsSelected(responses);
      if status != "" {
        BodyIsSelected(responses[status]);
      }
    }
  }

  lemma BestStatusIsUnique(codes: set<string>, a: string, b: string)
    requires IsBestStatus(codes, a) && IsBestStatus(codes, b)
    ensures a == b
  {
    if "200" !in codes && exists s :: s in codes && IsSuccessCode(s) {
      assert IsNoGreater(a, b) && IsNoGreater(b, a);
      assert a == [a[0], a[1], a[2]] && b == [b[0], b[1], b[2]];
    }
  }

  lemma BodyIsUnique(response: Json, t1: string, s1: Option<Json>, t2: string, s2: Option<Json>)
    requires IsBodyOf(response, t1, s1) && IsBodyOf(response, t2, s2)
    ensures t1 == t2 && s1 == s2
  {
    TriedBeforeIsTotal(t1, t2);
  }

  /** The definitions of the component schemas; there are none where no components, or no schemas, are given. */
  ghost predicate AreDefinitions(components: Option<Json>, definitions: map<string, Json>) {
    if components.None? || components.value == Null then definitions == map[]
    else
      && components.value.Object?
      && if "schemas" !in components.value.members || components.value.members["schemas"] == Null then definitions == map[]
         else components.value.members["schemas"] == Object(definitions)
  }

  ghost predicate HasDefinitions(components: Option<Json>) {
    exists definitions :: AreDefinitions(components, definitions)
  }

  lemma DefinitionsAreDecoded(components: Option<Json>)
    ensures DecodeComponentSchemas(components).Some? <==> HasDefinitions(components)
    ensures forall definitions ::
      AreDefinitions(components, definitions) <==> DecodeComponentSchemas(components) == Some(definitions)
  {
    var decoded := DecodeComponentSchemas(components);
    assert decoded.Some? ==> AreDefinitions(components, decoded.value);
  }

  ghost predicate HasLocalRef(tree: Json) {
    exists ref :: HasRef(tree, ref) && "#/components/schemas/" <= ref && |ref| > 21 && ref[21] != '/'
  }

  lemma RefsIffLocalRef(tree: Json)
    ensures ComponentOf(tree).refs != [] <==> HasLocalRef(tree)
  {
    if ComponentOf(tree).refs != [] {
      var name := ComponentOf(tree).refs[0];
      SchemaReferencesMeaning(tree, name, NotFound(""));
      var ref :| HasRef(tree, ref) && LocalComponentName(ref) == Some(name);
      LocalIffNamedBehindPrefix(ref);
    }
    if ref :| HasRef(tree, ref) && "#/components/schemas/" <= ref && |ref| > 21 && ref[21] != '/' {
      LocalIffNamedBehindPrefix(ref);
      SchemaReferencesMeaning(tree, LocalComponentName(ref).value, NotFound(""));
    }
  }

  /** The component schemas are an error only if they are asked for: the selected schema has a local reference. */
  lemma ComponentsErrorIff(api: Api, status: string, contentType: string, schema: Option<Json>)
    requires api.responses.Some? && api.responses.value.Object?
    requires IsBestStatus(api.responses.value.members.Keys, status) && status != ""
    requires IsReadable(api.responses.value.members[status])
    requires IsBodyOf(api.responses.value.members[status], contentType, schema)
    ensures ResponseSchema(api) == Malformed(ComponentsField) <==>
      schema.Some? && HasLocalRef(schema.value) && !HasDefinitions(api.components)
  {
    var response := api.responses.value.members[status];
    var found := SelectedIs(api, status);
    if found.Some? {
      BodyIsUnique(response, contentType, schema, found.value.1, Some(found.value.0));
      RefsIffLocalRef(found.value.0);
    } else {
      BodyIsUnique(response, contentType, schema, "", None);
    }
    DefinitionsAreDecoded(api.components);
  }

  lemma SelectedIs(api: Api, status: string) returns (found: Option<(Json, string)>)
    requires api.responses.Some? && api.responses.value.Object?
    requires IsBestStatus(api.responses.value.members.Keys, status) && status != ""
    requires IsReadable(api.responses.value.members[status])
    ensures IsBodyFound(api.responses.value.members[status], found)
    ensures SelectedBody(api) ==
      if found.Some? then Ok(SchemaDocument(status, found.value.1, Some(found.value.0), map[], []))
      else Ok(SchemaDocument(status, "", None, map[], []))
  {
    var responses := api.responses.value.members;
    var best := BestStatusIsSelected(responses);
    BestStatusIsUnique(responses.Keys, best, status);
    BodyIsSelected(responses[status]);
    found := SelectResponseBodySchema(DecodeResponse(responses[status]).value).value;
  }

  /** The section is the whole of the responses, and it fails exactly for these two reasons. */
  lemma SectionIsWhole(api: Api)
    ensures
      var r := ResponseSection(api);
      if api.responses.None? || api.responses.value == Null then r == Ok(SectionDocument(None, map[], []))
      else
        && (r == Malformed(Responses) <==> !api.responses.value.Object?)
        && (r == Malformed(ComponentsField) <==>
              api.responses.value.Object? && HasLocalRef(api.responses.value) && !HasDefinitions(api.components))
        && (r.Ok? ==> r.value.responses == api.responses)
  {
    if HasJSONValue(api.responses) {
      RefsIffLocalRef(api.responses.value);
    }
    DefinitionsAreDecoded(api.components);
  }

  /** What a tree refers to, its parts refer to no more. */
  lemma RefsOfPart(tree: Json, part: Json, name: string)
    requires Contains(tree, part) && name in ComponentOf(part).refs
    ensures name in ComponentOf(tree).refs
  {
    SchemaReferencesMeaning(part, name, NotFound(""));
    SchemaReferencesMeaning(tree, name, NotFound(""));
    var ref :| HasRef(part, ref) && LocalComponentName(ref) == Some(name);
    RefOfPart(tree, part, ref);
  }

  lemma ReachableFromMore(schemas: Schemas, less: Component, more: Component, name: string)
    requires forall n :: n in less.refs ==> n in more.refs
    requires Reachable(schemas, less, name)
    ensures Reachable(schemas, more, name)
  {
    var walk :| IsWalk(schemas, walk) && walk[0] in less.refs && walk[|walk| - 1] == name;
    assert walk[0] in more.refs;
  }

  lemma RootIsNonLocal(tree: Json)
    ensures forall w :: w in ComponentOf(tree).refWarnings ==> w.NonLocal?
  {
    forall w | w in ComponentOf(tree).refWarnings
      ensures w.NonLocal?
    {
      SchemaReferencesMeaning(tree, "", w);
    }
  }

  ghost predicate IsRaisedBy(w: Warning, definitions: map<string, Json>, components: map<string, Json>) {
    exists n :: n in components && n in definitions && w in ComponentOf(definitions[n]).refWarnings
  }

  /** The components are the defined schemas reachable from the tree, each with its definition, and every kind of
      warning is given for exactly what it speaks of, each once. */
  ghost predicate IsExactFor(
    tree: Json, definitions: map<string, Json>, components: map<string, Json>, warnings: seq<Warning>, name: string)
  {
    var schemas, root := Components(definitions), ComponentOf(tree);
    && (name in components <==> name in definitions && Reachable(schemas, root, name))
    && (name in components ==> components[name] == definitions[name])
    && (NotFound(name) in warnings <==> name !in definitions && Reachable(schemas, root, name))
    && (Cyclic(name) in warnings ==> Reachable(schemas, root, name) && OnCycle(schemas, name))
    && CyclesAreMarked(schemas, root, warnings)
    && (NonLocal(name) in warnings <==> NonLocal(name) in root.refWarnings || IsRaisedBy(NonLocal(name), definitions, components))
    && NoDuplicates(warnings)
  }

  lemma MarksAreKept(schemas: Schemas, root: Component, log: seq<Warning>)
    requires CyclesAreMarked(schemas, root, log)
    ensures CyclesAreMarked(schemas, root, FirstSeen(log))
  {
    FirstSeenKeepsFirstOccurrences(log);
    forall cycle | IsCycle(schemas, cycle) && Reachable(schemas, root, cycle[0])
      ensures IsMarked(cycle, FirstSeen(log))
    {
      var i :| 0 <= i < |cycle| && Cyclic(cycle[i]) in log;
      assert Cyclic(cycle[i]) in FirstSeen(log);
    }
  }

  lemma RaisedIff(w: Warning, definitions: map<string, Json>, components: map<string, Json>)
    ensures IsRaisedBy(w, definitions, components) <==>
      exists n :: n in components && n in Components(definitions) && w in Components(definitions)[n].refWarnings
  {
    var schemas := Components(definitions);
    if n :| n in components && n in schemas && w in schemas[n].refWarnings {
      assert w in ComponentOf(definitions[n]).refWarnings;
    }
    if n :| n in components && n in definitions && w in ComponentOf(definitions[n]).refWarnings {
      assert w in schemas[n].refWarnings;
    }
  }

  lemma SearchIsExact(tree: Json, definitions: map<string, Json>, name: string)
    ensures
      var found := Close(Components(definitions), ComponentOf(tree));
      IsExactFor(tree, definitions, found.reachable, FirstSeen(found.log), name)
  {
    var schemas, root := Components(definitions), ComponentOf(tree);
    var found := Close(schemas, root);
    ComponentsAreOnlyNonLocal(definitions);
    RootIsNonLocal(tree);
    CloseFindsReachable(schemas, root, name, NonLocal(name));
    FirstSeenKeepsFirstOccurrences(found.log);
    MarksAreKept(schemas, root, found.log);
    RaisedIff(NonLocal(name), definitions, found.reachable);
  }

  lemma ClosureIsExact(api: Api, tree: Json, definitions: map<string, Json>, name: string)
    requires CloseOver(api, tree).Some?
    requires AreDefinitions(api.components, definitions) || !HasDefinitions(api.components)
    ensures
      var closure := CloseOver(api, tree).value;
      IsExactFor(tree, definitions, closure.reachable, FirstSeen(closure.log), name)
  {
    DefinitionsAreDecoded(api.components);
    SearchIsExact(tree, definitions, name);
  }

  lemma SchemaIsClosed(api: Api)
    requires ResponseSchema(api).Ok? && ResponseSchema(api).value.schema.Some?
    ensures
      var document := ResponseSchema(api).value;
      var closure := CloseOver(api, document.schema.value);
      closure.Some? && document.components == closure.value.reachable && document.warnings == FirstSeen(closure.value.log)
  {
  }

  /** The projection of the selected body schema is complete and says nothing else. If the component schemas cannot be
      read, nothing asked for them, and it does not matter what they are. */
  lemma SchemaIsExact(api: Api, definitions: map<string, Json>, name: string)
    requires ResponseSchema(api).Ok? && ResponseSchema(api).value.schema.Some?
    requires AreDefinitions(api.components, definitions) || !HasDefinitions(api.components)
    ensures
      var document := ResponseSchema(api).value;
      IsExactFor(document.schema.value, definitions, document.components, document.warnings, name)
  {
    SchemaIsClosed(api);
    ClosureIsExact(api, ResponseSchema(api).value.schema.value, definitions, name);
  }

  /** So is the projection of the whole response section. */
  lemma SectionIsExact(api: Api, definitions: map<string, Json>, name: string)
    requires HasJSONValue(api.responses) && ResponseSection(api).Ok?
    requires AreDefinitions(api.components, definitions) || !HasDefinitions(api.components)
    ensures
      var section := ResponseSection(api).value;
      IsExactFor(api.responses.value, definitions, section.components, section.warnings, name)
  {
    ClosureIsExact(api, api.responses.value, definitions, name);
  }

  /** Whatever the selected body schema reaches, the whole response section reaches too, with the same definition. */
  lemma SchemaComponentsAreInSection(api: Api, name: string)
    requires ResponseSchema(api).Ok? && ResponseSection(api).Ok?
    requires name in ResponseSchema(api).value.components
    ensures name in ResponseSection(api).value.components
    ensures ResponseSection(api).value.components[name] == ResponseSchema(api).value.components[name]
  {
    SchemaHasSchema(api, name);
    var schema, tree := ResponseSchema(api).value.schema.value, api.responses.value;
    SelectedSchemaIsPart(api);
    forall n | n in ComponentOf(schema).refs
      ensures n in ComponentOf(tree).refs
    {
      RefsOfPart(tree, schema, n);
    }
    var definitions := DecodeComponentSchemas(api.components).value;
    DefinitionsAreDecoded(api.components);
    SchemaIsExact(api, definitions, name);
    ReachableFromMore(Components(definitions), ComponentOf(schema), ComponentOf(tree), name);
    SectionIsExact(api, definitions, name);
  }

  /** Components come with a schema, and with components that could be decoded. */
  lemma SchemaHasSchema(api: Api, name: string)
    requires ResponseSchema(api).Ok? && name in ResponseSchema(api).value.components
    ensures HasJSONValue(api.responses) && ResponseSchema(api).value.schema.Some? && DecodeComponentSchemas(api.components).Some?
  {
  }
}
