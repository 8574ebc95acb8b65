/**
 What one schema refers to: reference names and their JSON Pointer escaping, and the walk that
 collects references from a JSON tree.
 */
module References {
  import opened Text

  datatype Json =
    | Null
    | Bool(b: bool)
    | Number(text: string)
    | String(s: string)
    | Array(items: seq<Json>)
    | Object(members: map<string, Json>)

  /** A warning by kind; its text depends only on the kind and on the reference it quotes. */
  datatype Warning = NonLocal(ref: string) | Cyclic(name: string) | NotFound(name: string) {
    function QuotedRef(): string {
      match this
      case NonLocal(ref) => ref
      case Cyclic(name) => SchemaRef(name)
      case NotFound(name) => SchemaRef(name)
    }
  }

  const LOCAL_SCHEMA_REF_PREFIX := "#/components/schemas/"

  // ----- Names and their JSON Pointer segments (sections 3 and 4 of RFC 6901) -----

  function EscapeJSONPointerSegment(value: string): string {
    ReplaceAll(ReplaceAll(value, "~", "~0"), "/", "~1")
  }

  function UnescapeJSONPointerSegment(value: string): string {
    ReplaceAll(ReplaceAll(value, "~1", "/"), "~0", "~")
  }

  function LocalComponentName(ref: string): Option<string> {
    if !(LOCAL_SCHEMA_REF_PREFIX <= ref) then None
    else
      var remainder := Before(ref[|LOCAL_SCHEMA_REF_PREFIX|..], '/');
      if remainder == [] then None else Some(UnescapeJSONPointerSegment(remainder))
  }

  /** A reference is local if it names something behind the prefix, and not otherwise. */
  lemma LocalIffNamedBehindPrefix(ref: string)
    ensures LocalComponentName(ref).Some? <==> "#/components/schemas/" <= ref && |ref| > 21 && ref[21] != '/'
  {
    assert |LOCAL_SCHEMA_REF_PREFIX| == 21;
  }

  function SchemaRef(name: string): string {
    LOCAL_SCHEMA_REF_PREFIX + EscapeJSONPointerSegment(name)
  }

  /** A pointer segment of RFC 6901: no slash, and every tilde starts one of the two escapes. */
  predicate IsSegment(s: string) {
    s == [] || (
      if s[0] == '~' then |s| > 1 && s[1] in {'0', '1'} && IsSegment(s[2..])
      else s[0] != '/' && IsSegment(s[1..])
    )
  }

  /** Escaping one character at a time. */
  function Escaped(value: string): string {
    if value == [] then []
    else (if value[0] == '~' then "~0" else if value[0] == '/' then "~1" else [value[0]]) + Escaped(value[1..])
  }

  lemma {:induction false} EscapeIsCharacterwise(value: string)
    ensures EscapeJSONPointerSegment(value) == Escaped(value)
  {
    if value != [] {
      var c, rest := value[0], value[1..];
      EscapeIsCharacterwise(rest);
      var tildes := ReplaceAll(rest, "~", "~0");
      if c == '~' {
        assert value[|"~"|..] == rest;
        var zero := ['0'] + tildes;
        assert ReplaceAll(value, "~", "~0") == ['~'] + zero;
        assert (['~'] + zero)[1..] == zero;
        assert zero[0] == '0' && zero[1..] == tildes;
        assert ReplaceAll(zero, "/", "~1") == ['0'] + ReplaceAll(tildes, "/", "~1");
      } else {
        var w := [c] + tildes;
        assert ReplaceAll(value, "~", "~0") == w;
        assert w[0] == c && w[1..] == tildes;
        assert ReplaceAll(w, "/", "~1") == (if c == '/' then "~1" else [c]) + ReplaceAll(tildes, "/", "~1");
      }
    }
  }

  /** Unescaping one escape at a time, in a single pass. */
  function Unescaped(s: string): string {
    if s == [] then []
    else if "~1" <= s then "/" + Unescaped(s[2..])
    else if "~0" <= s then "~" + Unescaped(s[2..])
    else [s[0]] + Unescaped(s[1..])
  }

  lemma UnescapeSlash(rest: string)
    ensures UnescapeJSONPointerSegment("~1" + rest) == "/" + UnescapeJSONPointerSegment(rest)
  {
    ReplaceHead("~1", rest, "/");
    ReplaceCopies('/', ReplaceAll(rest, "~1", "/"), "~0", "~");
  }

  lemma UnescapeTilde(rest: string)
    ensures UnescapeJSONPointerSegment("~0" + rest) == "~" + UnescapeJSONPointerSegment(rest)
  {
    var slashes := ReplaceAll(rest, "~1", "/");
    assert "~0" + rest == ['~'] + (['0'] + rest);
    ReplaceCopies('~', ['0'] + rest, "~1", "/");
    ReplaceCopies('0', rest, "~1", "/");
    assert ['~'] + (['0'] + slashes) == "~0" + slashes;
    ReplaceHead("~0", slashes, "~");
  }

  lemma UnescapeOther(c: char, rest: string)
    requires c != '~'
    ensures UnescapeJSONPointerSegment([c] + rest) == [c] + UnescapeJSONPointerSegment(rest)
  {
    ReplaceCopies(c, rest, "~1", "/");
    ReplaceCopies(c, ReplaceAll(rest, "~1", "/"), "~0", "~");
  }

  /** Two passes, slashes first, read a segment like the single pass does: no tilde written by the
      second pass can be taken up by the first. */
  lemma {:induction false} UnescapeIsSinglePass(s: string)
    requires IsSegment(s)
    ensures UnescapeJSONPointerSegment(s) == Unescaped(s)
  {
    if s != [] {
      if s[0] != '~' {
        UnescapeIsSinglePass(s[1..]);
        UnescapeOther(s[0], s[1..]);
        assert s == [s[0]] + s[1..];
      } else {
        UnescapeIsSinglePass(s[2..]);
        assert s == ['~', s[1]] + s[2..];
        if s[1] == '1' {
          UnescapeSlash(s[2..]);
        } else {
          UnescapeTilde(s[2..]);
        }
      }
    }
  }

  lemma {:induction false} EscapedIsSegment(value: string)
    ensures IsSegment(Escaped(value))
    ensures Unescaped(Escaped(value)) == value
    ensures '/' !in Escaped(value)
  {
    if value != [] {
      EscapedIsSegment(value[1..]);
      var rest := Escaped(value[1..]);
      if value[0] in {'~', '/'} {
        assert Escaped(value)[2..] == rest;
        assert Escaped(value)[1..][1..] == rest;
      } else {
        assert Escaped(value)[1..] == rest;
      }
      assert value == [value[0]] + value[1..];
    }
  }

  /** Unescaping undoes escaping on every name, and the escaped text holds no slash. */
  lemma UnescapeUndoesEscape(name: string)
    ensures UnescapeJSONPointerSegment(EscapeJSONPointerSegment(name)) == name
    ensures '/' !in EscapeJSONPointerSegment(name)
  {
    EscapeIsCharacterwise(name);
    EscapedIsSegment(name);
    UnescapeIsSinglePass(Escaped(name));
  }

  lemma {:induction false} EscapedUndoesUnescaped(s: string)
    requires IsSegment(s)
    ensures Escaped(Unescaped(s)) == s
  {
    if s != [] {
      var n := if s[0] == '~' then 2 else 1;
      EscapedUndoesUnescaped(s[n..]);
      assert Unescaped(s)[1..] == Unescaped(s[n..]);
      assert s == s[..n] + s[n..];
    }
  }

  /** Escaping undoes unescaping exactly on pointer segments. */
  lemma EscapeUndoesUnescapeIffSegment(s: string)
    ensures EscapeJSONPointerSegment(UnescapeJSONPointerSegment(s)) == s <==> IsSegment(s)
  {
    var name := UnescapeJSONPointerSegment(s);
    EscapeIsCharacterwise(name);
    EscapedIsSegment(name);
    if IsSegment(s) {
      UnescapeIsSinglePass(s);
      EscapedUndoesUnescaped(s);
    }
  }

  /** The order of the two passes matters: tildes first would read "~01" as a slash. */
  lemma UnescapeOrderMatters()
    ensures UnescapeJSONPointerSegment("~01") == "~1"
    ensures ReplaceAll(ReplaceAll("~01", "~0", "~"), "~1", "/") == "/"
  {
    assert ReplaceAll("~01", "~1", "/") == "~01" by {
      assert "~01"[1..] == "01" && "01"[1..] == "1" && "1"[1..] == "";
    }
    assert ReplaceAll("~01", "~0", "~") == "~1" by {
      assert "~01"[2..] == "1" && "1"[1..] == "";
    }
    assert ReplaceAll("~1", "~1", "/") == "/" by {
      assert "~1"[2..] == "";
    }
  }

  lemma BehindPrefix(prefix: string, a: string, b: string)
    ensures prefix <= prefix + a + b && (prefix + a + b)[|prefix|..] == a + b
  {
  }

  /** A reference to a component, or to anything below it, names the component. */
  lemma LocalComponentNameOfSchemaRef(name: string, below: string)
    requires name != []
    requires below == [] || below[0] == '/'
    ensures LocalComponentName(SchemaRef(name) + below) == Some(name)
  {
    var segment := EscapeJSONPointerSegment(name);
    UnescapeUndoesEscape(name);
    BeforeOf(segment, below, '/');
    BehindPrefix(LOCAL_SCHEMA_REF_PREFIX, segment, below);
  }

  /** Two warnings of one kind that quote the same reference are the same warning, so dropping
      repeated texts is dropping repeated warnings. */
  lemma WarningIsKindAndQuotedRef(a: Warning, b: Warning)
    requires (a.NonLocal? <==> b.NonLocal?) && (a.Cyclic? <==> b.Cyclic?)
    requires a.QuotedRef() == b.QuotedRef()
    ensures a == b
  {
    if !a.NonLocal? {
      UnescapeUndoesEscape(a.name);
      UnescapeUndoesEscape(b.name);
      assert SchemaRef(a.name)[|LOCAL_SCHEMA_REF_PREFIX|..] == EscapeJSONPointerSegment(a.name);
      assert SchemaRef(b.name)[|LOCAL_SCHEMA_REF_PREFIX|..] == EscapeJSONPointerSegment(b.name);
    }
  }

  // ----- Collecting references -----

  /** The reference strings of a tree in the order the walk meets them: members by increasing key,
      a member named $ref that is a string before what lies below it. */
  function RefStrings(node: Json): seq<string>
    decreases node, 1, 0
  {
    match node
    case Object(members) => MemberRefs(node, SortedKeys(members.Keys))
    case Array(items) => ItemRefs(node, 0)
    case _ => []
  }

  function MemberRefs(node: Json, keys: seq<string>): seq<string>
    requires node.Object? && forall k :: k in keys ==> k in node.members
    decreases node, 0, |keys|
  {
    if keys == [] then []
    else
      var key, child := keys[0], node.members[keys[0]];
      (if key == "$ref" && child.String? then [child.s] else [])
        + RefStrings(child) + MemberRefs(node, keys[1..])
  }

  function ItemRefs(node: Json, n: nat): seq<string>
    requires node.Array? && n <= |node.items|
    decreases node, 0, |node.items| - n
  {
    if n == |node.items| then [] else RefStrings(node.items[n]) + ItemRefs(node, n + 1)
  }

  /** sub is node itself or lies somewhere below it. */
  ghost predicate Contains(node: Json, sub: Json) {
    || node == sub
    || (node.Object? && exists k :: k in node.members && Contains(node.members[k], sub))
    || (node.Array? && exists item :: item in node.items && Contains(item, sub))
  }

  /** Somewhere in the tree an object has a $ref member that is this string. */
  ghost predicate HasRef(node: Json, ref: string) {
    exists sub :: Contains(node, sub) && sub.Object? && "$ref" in sub.members && sub.members["$ref"] == String(ref)
  }

  ghost predicate HasRefInMember(node: Json, key: string, ref: string)
    requires node.Object? && key in node.members
  {
    (key == "$ref" && node.members[key] == String(ref)) || HasRef(node.members[key], ref)
  }

  lemma HasRefUnfolds(node: Json, ref: string)
    ensures node.Object? ==> (HasRef(node, ref) <==> exists k :: k in node.members && HasRefInMember(node, k, ref))
    ensures node.Array? ==> (HasRef(node, ref) <==> exists item :: item in node.items && HasRef(item, ref))
    ensures !node.Object? && !node.Array? ==> !HasRef(node, ref)
  {
    if node.Object? {
      if k :| k in node.members && HasRefInMember(node, k, ref) {
        if k == "$ref" && node.members[k] == String(ref) {
          assert Contains(node, node);
        } else {
          var sub :| Contains(node.members[k], sub) && sub.Object? && "$ref" in sub.members && sub.members["$ref"] == String(ref);
          assert Contains(node, sub);
        }
      }
    } else if node.Array? {
      if item :| item in node.items && HasRef(item, ref) {
        var sub :| Contains(item, sub) && sub.Object? && "$ref" in sub.members && sub.members["$ref"] == String(ref);
        assert Contains(node, sub);
      }
    }
  }

  /** The walk meets exactly the reference strings that occur in the tree. */
  lemma {:induction false} WalkFindsEveryRef(node: Json, ref: string)
    ensures ref in RefStrings(node) <==> HasRef(node, ref)
    decreases node, 1, 0
  {
    HasRefUnfolds(node, ref);
    match node
    case Object(members) => MemberWalkFindsEveryRef(node, SortedKeys(members.Keys), ref);
    case Array(items) => ItemWalkFindsEveryRef(node, 0, ref);
    case _ =>
  }

  lemma {:induction false} MemberWalkFindsEveryRef(node: Json, keys: seq<string>, ref: string)
    requires node.Object? && forall k :: k in keys ==> k in node.members
    ensures ref in MemberRefs(node, keys) <==> exists k :: k in keys && HasRefInMember(node, k, ref)
    decreases node, 0, |keys|
  {
    if keys != [] {
      var key, rest := keys[0], keys[1..];
      WalkFindsEveryRef(node.members[key], ref);
      MemberWalkFindsEveryRef(node, rest, ref);
      HasRefUnfolds(node.members[key], ref);
      assert forall k :: k in keys <==> k == key || k in rest;
    }
  }

  lemma {:induction false} ItemWalkFindsEveryRef(node: Json, n: nat, ref: string)
    requires node.Array? && n <= |node.items|
    ensures ref in ItemRefs(node, n) <==> exists item :: item in node.items[n..] && HasRef(item, ref)
    decreases node, 0, |node.items| - n
  {
    if n < |node.items| {
      WalkFindsEveryRef(node.items[n], ref);
      ItemWalkFindsEveryRef(node, n + 1, ref);
      assert node.items[n..] == [node.items[n]] + node.items[n + 1..];
    }
  }

  /** A reference below a part of a tree is a reference below the tree. */
  lemma {:induction false} RefOfPart(node: Json, part: Json, ref: string)
    requires Contains(node, part) && HasRef(part, ref)
    ensures HasRef(node, ref)
    decreases node
  {
    if node != part {
      HasRefUnfolds(node, ref);
      if node.Object? {
        var k :| k in node.members && Contains(node.members[k], part);
        RefOfPart(node.members[k], part, ref);
        assert HasRefInMember(node, k, ref);
      } else {
        var n :| 0 <= n < |node.items| && Contains(node.items[n], part);
        RefOfPart(node.items[n], part, ref);
      }
    }
  }

  // ----- What a schema refers to -----

  /** Names of local components, in order, and the references that are not local. */
  function ComponentNames(refs: seq<string>): seq<string> {
    if refs == [] then []
    else
      var name := LocalComponentName(refs[0]);
      (if name.Some? then [name.value] else []) + ComponentNames(refs[1..])
  }

  function NonLocalWarnings(refs: seq<string>): seq<Warning> {
    if refs == [] then []
    else
      (if LocalComponentName(refs[0]).None? then [NonLocal(refs[0])] else []) + NonLocalWarnings(refs[1..])
  }

  /** Both lists of schemaReferences; its own collector drops repeated warnings. */
  function SchemaReferences(schema: Json): (seq<string>, seq<Warning>) {
    var refs := RefStrings(schema);
    (ComponentNames(refs), FirstSeen(NonLocalWarnings(refs)))
  }

  function Dependencies(schema: Json): seq<string> {
    SchemaReferences(schema).0
  }

  lemma {:induction false} ComponentNamesOfRefs(refs: seq<string>, name: string)
    ensures name in ComponentNames(refs) <==> exists ref :: ref in refs && LocalComponentName(ref) == Some(name)
  {
    if refs != [] {
      ComponentNamesOfRefs(refs[1..], name);
      assert refs == [refs[0]] + refs[1..];
    }
  }

  lemma {:induction false} NonLocalWarningsOfRefs(refs: seq<string>, w: Warning)
    ensures w in NonLocalWarnings(refs) <==> w.NonLocal? && w.ref in refs && LocalComponentName(w.ref).None?
  {
    if refs != [] {
      NonLocalWarningsOfRefs(refs[1..], w);
      assert refs == [refs[0]] + refs[1..];
    }
  }

  /** A schema depends on a component exactly if some $ref inside it, however deep, names the component;
      it is warned about exactly for its other references. */
  lemma SchemaReferencesMeaning(schema: Json, name: string, w: Warning)
    ensures name in Dependencies(schema) <==> exists ref :: HasRef(schema, ref) && LocalComponentName(ref) == Some(name)
    ensures w in SchemaReferences(schema).1 <==> w.NonLocal? && HasRef(schema, w.ref) && LocalComponentName(w.ref).None?
  {
    var refs := RefStrings(schema);
    ComponentNamesOfRefs(refs, name);
    NonLocalWarningsOfRefs(refs, w);
    FirstSeenKeepsFirstOccurrences(NonLocalWarnings(refs));
    forall ref
      ensures ref in refs <==> HasRef(schema, ref)
    {
      WalkFindsEveryRef(schema, ref);
    }
  }
}
