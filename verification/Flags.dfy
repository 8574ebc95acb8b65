/**
 Command-line flags: what an occurrence or a value does to one flag, and the sets in which flags are
 found by their forms.
 */
module Flags {
  import opened Text

  datatype AssignedMode = AssignedNone | AssignedDefault | AssignedOnce | AssignedRepeatable

  datatype Error =
    | DashDash            // a bare "--"
    | UnsupportedForm     // a dash form that is neither -x nor --name
    | UnknownFlag
    | Duplicated
    | MustHaveValue
    | CannotAssign
    | PanicDuplicate      // the program stops: a form is already taken

  datatype Result<+T> = Ok(value: T) | Err(error: Error)

  /** The text before the first splitter, the text behind it, and whether there is one. */
  function SplitStringWithPrefix(s: string, splitters: set<char>): (r: (string, string, bool))
    ensures r.2 ==> |r.0| < |s| && s == r.0 + [s[|r.0|]] + r.1 && s[|r.0|] in splitters
    ensures !r.2 ==> r.0 == s && r.1 == ""
    ensures forall c :: c in r.0 ==> c !in splitters
  {
    if s == [] then ("", "", false)
    else if s[0] in splitters then ("", s[1..], true)
    else
      var (prefix, rest, found) := SplitStringWithPrefix(s[1..], splitters);
      ([s[0]] + prefix, rest, found)
  }

  // ----- The state of a flag -----

  datatype FlagField = FlagField(key: string, isAssigned: bool, value: string, values: seq<string>) {
    function Assign(v: string): FlagField {
      FlagField(key, true, v, values + [v])
    }
  }

  /** The field with the key, if any, takes the value. */
  function AssignKey(fields: seq<FlagField>, key: string, v: string): seq<FlagField> {
    if fields == [] then []
    else if fields[0].key == key then [fields[0].Assign(v)] + fields[1..]
    else [fields[0]] + AssignKey(fields[1..], key, v)
  }

  /** Splits off a key; what no field takes is dropped without an error. */
  function AssignField(fields: seq<FlagField>, s: string): seq<FlagField> {
    var (k, v, found) := SplitStringWithPrefix(s, {'='});
    AssignKey(fields, if found then k else "", v)
  }

  datatype FlagState = FlagState(isAssigned: bool, value: string, values: seq<string>, fields: seq<FlagField>)

  function AfterValue(mode: AssignedMode, st: FlagState, v: string): FlagState {
    if mode.AssignedRepeatable? then
      FlagState(true, v, st.values + [v], if st.fields != [] then AssignField(st.fields, v) else st.fields)
    else st.(isAssigned := true, value := v)
  }

  /** None is the error of a flag that may not be repeated. */
  function AfterOccurrence(mode: AssignedMode, allowRepeated: bool, st: FlagState): Option<FlagState> {
    if !st.isAssigned then Some(st.(isAssigned := true))
    else if mode.AssignedRepeatable? then Some(st)
    else if allowRepeated then Some(st.(value := "", values := []))
    else None
  }

  predicate NeedsValue(mode: AssignedMode, st: FlagState) {
    match mode
    case AssignedNone => false
    case AssignedDefault => st.value == ""
    case AssignedOnce => st.value == ""
    case AssignedRepeatable => true
  }

  /** The field at i is the first with the key. */
  predicate IsFirstWithKey(fields: seq<FlagField>, key: string, i: int) {
    0 <= i < |fields| && fields[i].key == key && forall j :: 0 <= j < i ==> fields[j].key != key
  }

  lemma {:induction false} AssignKeyReachesFirst(fields: seq<FlagField>, key: string, v: string, i: nat)
    requires IsFirstWithKey(fields, key, i)
    ensures AssignKey(fields, key, v) == fields[i := fields[i].Assign(v)]
  {
    if fields[0].key != key {
      AssignKeyReachesFirst(fields[1..], key, v, i - 1);
    }
  }

  lemma {:induction false} SplitAtFirst(key: string, v: string)
    requires '=' !in key
    ensures SplitStringWithPrefix(key + "=" + v, {'='}) == (key, v, true)
  {
    var s := key + "=" + v;
    if key == "" {
      assert s[1..] == v;
    } else {
      SplitAtFirst(key[1..], v);
      assert s[1..] == key[1..] + "=" + v;
      assert s[0] == key[0] && key[0] in key;
      assert key == [key[0]] + key[1..];
    }
  }

  /** A field without a key is meant for bare values, but a bare value reaches it as the empty text, so it arrives
      exactly if it is empty. */
  lemma BareValueArrivesIffEmpty(st: FlagState, v: string, i: nat)
    requires IsFirstWithKey(st.fields, "", i) && '=' !in v
    ensures AfterValue(AssignedRepeatable, st, v).fields == st.fields[i := st.fields[i].Assign("")]
    ensures AfterValue(AssignedRepeatable, st, v).fields[i].value == v <==> v == ""
  {
    var (k, w, found) := SplitStringWithPrefix(v, {'='});
    assert !found;
    AssignKeyReachesFirst(st.fields, "", "", i);
  }

  /** Spelled with its key, which may be empty, every value arrives at the first field with that key and at no other. */
  lemma KeyedValueArrives(st: FlagState, key: string, v: string, i: nat)
    requires IsFirstWithKey(st.fields, key, i) && '=' !in key
    ensures AfterValue(AssignedRepeatable, st, key + "=" + v).fields == st.fields[i := st.fields[i].Assign(v)]
  {
    SplitAtFirst(key, v);
    AssignKeyReachesFirst(st.fields, key, v, i);
  }

  class Flag {
    const name: string
    const shorthand: Option<char>
    const aliases: seq<string>
    const mode: AssignedMode
    const allowRepeatedUnknown: bool
    const dynamicUnknown: bool
    const persistent: bool
    var isAssigned: bool
    var value: string
    var values: seq<string>
    var fields: seq<FlagField>

    function State(): FlagState
      reads this
    {
      FlagState(isAssigned, value, values, fields)
    }

    /** A flag for a name that is not known, as it is added while parsing. */
    constructor Unknown(name: string, aliases: seq<string>, allowRepeatedUnknown: bool)
      ensures this.name == name && this.shorthand == None && this.aliases == aliases && mode == AssignedDefault
      ensures this.allowRepeatedUnknown == allowRepeatedUnknown && dynamicUnknown
      ensures State() == FlagState(false, "", [], [])
    {
      this.name, this.shorthand, this.aliases, mode := name, None, aliases, AssignedDefault;
      this.allowRepeatedUnknown, dynamicUnknown, persistent := allowRepeatedUnknown, true, false;
      isAssigned, value, values, fields := false, "", [], [];
    }

    /** The forms under which the flag is found. */
    function GetFormations(): seq<string> {
      (if name != "" then ["--" + name] else [])
        + seq(|aliases|, i requires 0 <= i < |aliases| => "--" + aliases[i])
        + (if shorthand.Some? then [['-', shorthand.value]] else [])
    }

    method SetIsAssigned() returns (error: Option<Error>)
      modifies this
      ensures error.None? <==> AfterOccurrence(mode, allowRepeatedUnknown, old(State())).Some?
      ensures error.None? ==> Some(State()) == AfterOccurrence(mode, allowRepeatedUnknown, old(State()))
      ensures error.Some? ==> State() == old(State()) && error == Some(Duplicated)
    {
      if !isAssigned {
        isAssigned := true;
      } else if mode != AssignedRepeatable {
        if allowRepeatedUnknown {
          value, values := "", [];
          return None;
        }
        return Some(Duplicated);
      }
      return None;
    }

    predicate NeedValue()
      reads this
    {
      NeedsValue(mode, State())
    }

    /** Only a repeatable flag may have fields. */
    predicate CheckValid()
      reads this
    {
      fields != [] ==> mode == AssignedRepeatable
    }

    function Validate(): Option<Error>
      reads this
    {
      if mode == AssignedOnce && value == "" then Some(MustHaveValue) else None
    }

    method Assign(v: string) returns (error: Option<Error>)
      modifies this
      ensures error.None? <==> mode != AssignedNone
      ensures error.None? ==> State() == AfterValue(mode, old(State()), v)
      ensures error.Some? ==> State() == old(State()) && error == Some(CannotAssign)
    {
      if mode == AssignedNone {
        return Some(CannotAssign);
      }
      isAssigned, value := true, v;
      if mode == AssignedRepeatable {
        values := values + [v];
        if fields != [] {
          fields := AssignField(fields, v);
        }
      }
      return None;
    }
  }

  /** The forms of a flag: its name and its aliases with two dashes, its letter with one. */
  lemma FormsOfFlag(f: Flag, form: string)
    ensures form in f.GetFormations() <==>
      || (f.name != "" && form == "--" + f.name)
      || (exists i :: 0 <= i < |f.aliases| && form == "--" + f.aliases[i])
      || (f.shorthand.Some? && form == ['-', f.shorthand.value])
  {
    var aliases := seq(|f.aliases|, i requires 0 <= i < |f.aliases| => "--" + f.aliases[i]);
    if i :| 0 <= i < |f.aliases| && form == "--" + f.aliases[i] {
      assert aliases[i] == form;
    }
    if form in aliases {
      var i :| 0 <= i < |aliases| && aliases[i] == form;
      assert form == "--" + f.aliases[i];
    }
  }

  // ----- Sets of flags -----

  lemma AppendIsDistinct(s: seq<string>, x: string)
    ensures NoDuplicates(s + [x]) <==> NoDuplicates(s) && x !in s
  {
    var t := s + [x];
    assert forall i :: 0 <= i < |s| ==> t[i] == s[i];
    if NoDuplicates(t) {
      forall i | 0 <= i < |s|
        ensures s[i] != x
      {
        assert t[i] != t[|s|];
      }
      forall i, j | 0 <= i < j < |s|
        ensures s[i] != s[j]
      {
        assert t[i] != t[j];
      }
    }
  }

  lemma PrefixIsDistinct(s: seq<string>, n: nat)
    requires n <= |s| && NoDuplicates(s)
    ensures NoDuplicates(s[..n])
  {
  }

  datatype FlagIndex = FlagIndex(flags: seq<Flag>, index: map<string, Flag>)

  function WithForms(index: map<string, Flag>, forms: seq<string>, f: Flag): map<string, Flag> {
    if forms == [] then index else WithForms(index, forms[..|forms| - 1], f)[forms[|forms| - 1] := f]
  }

  lemma {:induction false} WithFormsLeads(index: map<string, Flag>, forms: seq<string>, f: Flag, form: string)
    ensures Find(WithForms(index, forms, f), form) == if form in forms then Some(f) else Find(index, form)
  {
    if forms != [] {
      WithFormsLeads(index, forms[..|forms| - 1], f, form);
      assert forms == forms[..|forms| - 1] + [forms[|forms| - 1]];
    }
  }

  /** Every form leads to a flag of the set that has it. */
  ghost predicate LeadsToFlags(index: map<string, Flag>, flags: seq<Flag>) {
    forall form :: form in index ==> index[form] in flags && form in index[form].GetFormations()
  }

  lemma WithFormsLeadsToFlags(index: map<string, Flag>, flags: seq<Flag>, f: Flag)
    requires LeadsToFlags(index, flags)
    ensures LeadsToFlags(WithForms(index, f.GetFormations(), f), flags + [f])
  {
    var forms := f.GetFormations();
    var longer := WithForms(index, forms, f);
    forall form | form in longer
      ensures longer[form] in flags + [f] && form in longer[form].GetFormations()
    {
      WithFormsLeads(index, forms, f, form);
      assert Find(longer, form) == Some(longer[form]);
    }
  }

  function WithFlag(entries: FlagIndex, f: Flag): FlagIndex {
    if f in entries.flags then entries
    else FlagIndex(entries.flags + [f], WithForms(entries.index, f.GetFormations(), f))
  }

  function FromFlags(flags: seq<Flag>): FlagIndex {
    if flags == [] then FlagIndex([], map[])
    else
      var entries, f := FromFlags(flags[..|flags| - 1]), flags[|flags| - 1];
      FlagIndex(entries.flags + [f], WithForms(entries.index, f.GetFormations(), f))
  }

  function MergedWith(entries: FlagIndex, from: seq<Flag>, applies: Flag -> bool): FlagIndex {
    if from == [] then entries
    else
      var merged, f := MergedWith(entries, from[..|from| - 1], applies), from[|from| - 1];
      if applies(f) then WithFlag(merged, f) else merged
  }

  /** The last of the flags that are merged and has the form. */
  function LastWithForm(own: seq<Flag>, from: seq<Flag>, applies: Flag -> bool, form: string): Option<Flag> {
    if from == [] then None
    else
      var f := from[|from| - 1];
      if applies(f) && f !in own && form in f.GetFormations() then Some(f)
      else LastWithForm(own, from[..|from| - 1], applies, form)
  }

  function Find(index: map<string, Flag>, form: string): Option<Flag> {
    if form in index then Some(index[form]) else None
  }

  /** Where a form leads after a merge: to the last merged flag that has it, else to the flag it led to in the own set.
      So a persistent flag of the parent command hides a flag of the command itself. */
  lemma {:induction false} MergedFormLeads(entries: FlagIndex, from: seq<Flag>, applies: Flag -> bool, form: string)
    requires forall i, j :: 0 <= i < j < |from| ==> from[i] != from[j]
    ensures
      var last := LastWithForm(entries.flags, from, applies, form);
      Find(MergedWith(entries, from, applies).index, form) == if last.Some? then last else Find(entries.index, form)
    ensures forall f :: f in MergedWith(entries, from, applies).flags <==> f in entries.flags || (f in from && applies(f))
  {
    if from != [] {
      var n := |from| - 1;
      MergedFormLeads(entries, from[..n], applies, form);
      assert from == from[..n] + [from[n]];
      forall i | 0 <= i < n
        ensures from[i] != from[n]
      {
      }
      assert from[n] !in from[..n];
      WithFormsLeads(MergedWith(entries, from[..n], applies).index, from[n].GetFormations(), from[n], form);
    }
  }

  /** In the own set a form still leads where it led exactly if no merged flag has it. */
  lemma OwnFormStaysIff(entries: FlagIndex, from: seq<Flag>, applies: Flag -> bool, form: string)
    requires forall i, j :: 0 <= i < j < |from| ==> from[i] != from[j]
    requires form in entries.index && entries.index[form] in entries.flags
    ensures Find(MergedWith(entries, from, applies).index, form) == Find(entries.index, form) <==>
      forall f :: f in from && applies(f) && f !in entries.flags ==> form !in f.GetFormations()
  {
    MergedFormLeads(entries, from, applies, form);
    LastWithFormIsOne(entries.flags, from, applies, form);
  }

  lemma {:induction false} LastWithFormIsOne(own: seq<Flag>, from: seq<Flag>, applies: Flag -> bool, form: string)
    ensures
      var last := LastWithForm(own, from, applies, form);
      if last.Some? then last.value in from && applies(last.value) && last.value !in own && form in last.value.GetFormations()
      else forall f :: f in from && applies(f) && f !in own ==> form !in f.GetFormations()
  {
    if from != [] {
      LastWithFormIsOne(own, from[..|from| - 1], applies, form);
      assert from == from[..|from| - 1] + [from[|from| - 1]];
    }
  }

  /** A persistent flag of the parent command hides a flag of the command itself that shares a form with it. */
  lemma ParentHidesOwn(own: Flag, parent: Flag, applies: Flag -> bool, form: string)
    requires own != parent && applies(parent) && form in own.GetFormations() && form in parent.GetFormations()
    ensures Find(FromFlags([own]).index, form) == Some(own)
    ensures Find(MergedWith(FromFlags([own]), [parent], applies).index, form) == Some(parent)
  {
    WithFormsLeads(map[], own.GetFormations(), own, form);
    assert [own][..0] == [] && [parent][..0] == [];
    assert FromFlags([own]) == FlagIndex([own], WithForms(map[], own.GetFormations(), own));
    MergedFormLeads(FromFlags([own]), [parent], applies, form);
    assert LastWithForm([own], [parent], applies, form) == Some(parent);
  }

  // ----- When the forms of many flags can be added -----

  function FormsOf(flags: seq<Flag>): seq<string> {
    if flags == [] then [] else FormsOf(flags[..|flags| - 1]) + flags[|flags| - 1].GetFormations()
  }

  lemma {:induction false} FormsAreIndexed(flags: seq<Flag>, form: string)
    ensures form in FromFlags(flags).index <==> form in FormsOf(flags)
  {
    if flags != [] {
      var init, f := flags[..|flags| - 1], flags[|flags| - 1];
      FormsAreIndexed(init, form);
      WithFormsLeads(FromFlags(init).index, f.GetFormations(), f, form);
    }
  }

  lemma DistinctConcat(a: seq<string>, b: seq<string>)
    ensures NoDuplicates(a + b) <==> NoDuplicates(a) && NoDuplicates(b) && forall x :: x in b ==> x !in a
  {
    var s := a + b;
    if NoDuplicates(s) {
      forall i, j | 0 <= i < j < |a|
        ensures a[i] != a[j]
      {
        assert s[i] != s[j];
      }
      forall i, j | 0 <= i < j < |b|
        ensures b[i] != b[j]
      {
        assert s[|a| + i] != s[|a| + j];
      }
      forall i, j | 0 <= i < |a| && 0 <= j < |b|
        ensures a[i] != b[j]
      {
        assert s[i] != s[|a| + j];
      }
    }
    if NoDuplicates(a) && NoDuplicates(b) && forall x :: x in b ==> x !in a {
      forall i, j | 0 <= i < j < |s|
        ensures s[i] != s[j]
      {
        assert i < |a| <= j ==> s[i] == a[i] && s[j] == b[j - |a|] && b[j - |a|] in b;
      }
    }
  }

  /** All forms are free in the index, and no two are the same. */
  ghost predicate AreFree(index: map<string, Flag>, forms: seq<string>) {
    NoDuplicates(forms) && forall form :: form in forms ==> form !in index
  }

  lemma OneMoreIsFree(flags: seq<Flag>, f: Flag)
    requires NoDuplicates(FormsOf(flags))
    ensures AreFree(FromFlags(flags).index, f.GetFormations()) <==> NoDuplicates(FormsOf(flags + [f]))
  {
    assert (flags + [f])[..|flags|] == flags;
    DistinctConcat(FormsOf(flags), f.GetFormations());
    forall form
      ensures form in FromFlags(flags).index <==> form in FormsOf(flags)
    {
      FormsAreIndexed(flags, form);
    }
  }

  lemma {:induction false} FormsOfPrefixAreDistinct(flags: seq<Flag>, n: nat)
    requires n <= |flags| && NoDuplicates(FormsOf(flags))
    ensures NoDuplicates(FormsOf(flags[..n]))
  {
    if n < |flags| {
      var init, f := flags[..|flags| - 1], flags[|flags| - 1];
      DistinctConcat(FormsOf(init), f.GetFormations());
      FormsOfPrefixAreDistinct(init, n);
      assert init[..n] == flags[..n];
    } else {
      assert flags[..n] == flags;
    }
  }

  class FlagSet {
    var flags: seq<Flag>
    var index: map<string, Flag>

    /** The index leads to flags of the set, under forms of theirs. */
    ghost predicate Valid()
      reads this
    {
      LeadsToFlags(index, flags)
    }

    constructor ()
      ensures Valid() && flags == [] && index == map[]
    {
      flags, index := [], map[];
    }

    ghost predicate CanAdd(forms: seq<string>)
      reads this
    {
      AreFree(index, forms)
    }

    /** The program stops if the flag has fields it may not have, or if a form of it is taken already, by another flag or
        by the flag itself. */
    method Add(f: Flag) returns (panicked: bool)
      requires Valid()
      modifies this
      ensures panicked <==> !(old(CanAdd(f.GetFormations())) && f.CheckValid())
      ensures !panicked ==> Valid() && flags == old(flags) + [f] && index == WithForms(old(index), f.GetFormations(), f)
    {
      if !f.CheckValid() {
        return true;
      }
      var forms := f.GetFormations();
      for i := 0 to |forms|
        invariant flags == old(flags) && index == WithForms(old(index), forms[..i], f)
        invariant old(CanAdd(forms[..i]))
      {
        AppendIsDistinct(forms[..i], forms[i]);
        WithFormsLeads(old(index), forms[..i], f, forms[i]);
        assert forms[..i + 1] == forms[..i] + [forms[i]];
        if forms[i] in index {
          if NoDuplicates(forms) {
            PrefixIsDistinct(forms, i + 1);
          }
          assert forms[i] in forms;
          return true;
        }
        index := index[forms[i] := f];
      }
      assert forms[..|forms|] == forms;
      WithFormsLeadsToFlags(old(index), old(flags), f);
      flags := flags + [f];
      return false;
    }

    /** Adds a flag of another set; its forms lead to it from now on, whatever they led to before. */
    method Put(f: Flag)
      requires Valid()
      modifies this
      ensures Valid() && Contents() == WithFlag(old(Contents()), f)
    {
      if f in flags {
        return;
      }
      flags := flags + [f];
      var forms := f.GetFormations();
      for i := 0 to |forms|
        invariant flags == old(flags) + [f] && index == WithForms(old(index), forms[..i], f)
      {
        assert forms[..i + 1] == forms[..i] + [forms[i]];
        index := index[forms[i] := f];
      }
      assert forms[..|forms|] == forms;
      WithFormsLeadsToFlags(old(index), old(flags), f);
    }

    ghost function Contents(): FlagIndex
      reads this
    {
      FlagIndex(flags, index)
    }

    /** All flags of this set can be added to an empty one. */
    ghost predicate CanBeCopied()
      reads this, flags
    {
      NoDuplicates(FormsOf(flags)) && forall f :: f in flags ==> f.CheckValid()
    }

    /** The flags of this set and those of another that apply; without another set it is this set itself. The program
        stops exactly if two flags of this set share a form, or one has fields it may not have. */
    method MergeWith(from: FlagSet?, applies: Flag -> bool) returns (r: FlagSet, panicked: bool)
      requires Valid() && (from != null ==> from.Valid())
      ensures panicked <==> from != null && !CanBeCopied()
      ensures from == null ==> r == this
      ensures from != null ==> fresh(r)
      ensures from != null && !panicked ==>
        r.Valid() && r.Contents() == MergedWith(FromFlags(flags), from.flags, applies)
    {
      if from == null {
        return this, false;
      }
      r, panicked := CopyFlags();
      if panicked {
        return;
      }
      for i := 0 to |from.flags|
        invariant r.Valid() && r.Contents() == MergedWith(FromFlags(flags), from.flags[..i], applies)
      {
        assert from.flags[..i + 1][..i] == from.flags[..i];
        if applies(from.flags[i]) {
          r.Put(from.flags[i]);
        }
      }
      assert from.flags[..|from.flags|] == from.flags;
    }

    /** The first n flags can be copied one after the other. */
    ghost predicate CanBeCopiedUpTo(n: nat)
      reads this, flags
    {
      n <= |flags| && NoDuplicates(FormsOf(flags[..n])) && forall k :: 0 <= k < n ==> flags[k].CheckValid()
    }

    lemma OneMoreCanBeCopied(n: nat)
      requires n < |flags| && CanBeCopiedUpTo(n)
      ensures CanBeCopiedUpTo(n + 1) <==>
        AreFree(FromFlags(flags[..n]).index, flags[n].GetFormations()) && flags[n].CheckValid()
    {
      assert flags[..n + 1] == flags[..n] + [flags[n]];
      OneMoreIsFree(flags[..n], flags[n]);
    }

    lemma CopiedPartly(n: nat)
      requires n <= |flags|
      ensures CanBeCopied() ==> CanBeCopiedUpTo(n)
      ensures CanBeCopiedUpTo(|flags|) ==> CanBeCopied()
    {
      if NoDuplicates(FormsOf(flags)) {
        FormsOfPrefixAreDistinct(flags, n);
      }
      assert flags[..|flags|] == flags;
    }

    method CopyFlags() returns (r: FlagSet, panicked: bool)
      requires Valid()
      ensures fresh(r) && (panicked <==> !CanBeCopied())
      ensures !panicked ==> r.Valid() && r.Contents() == FromFlags(flags)
    {
      r := new FlagSet();
      panicked := false;
      for i := 0 to |flags|
        invariant r.Valid() && r.Contents() == FromFlags(flags[..i]) && CanBeCopiedUpTo(i)
      {
        assert flags[..i + 1][..i] == flags[..i];
        OneMoreCanBeCopied(i);
        panicked := r.Add(flags[i]);
        if panicked {
          CopiedPartly(i + 1);
          return;
        }
      }
      assert flags[..|flags|] == flags;
      CopiedPartly(|flags|);
    }

    function Get(name: string): Option<Flag>
      reads this
    {
      if "--" + name in index then Some(index["--" + name]) else None
    }

    function GetByShorthand(c: char): Option<Flag>
      reads this
    {
      if ['-', c] in index then Some(index[['-', c]]) else None
    }

    /** Adds a flag for an unknown name; a name for a file also answers to the name without the ending. */
    method AddByName(name: string, allowRepeatedUnknown: bool) returns (r: Result<Flag>)
      requires Valid()
      modifies this
      ensures r.Ok? ==> Valid() && fresh(r.value) && flags == old(flags) + [r.value]
      ensures r.Ok? && name != "" ==> Get(name) == Some(r.value)
      ensures r.Ok? ==> r.value.dynamicUnknown && r.value.State() == FlagState(false, "", [], [])
      ensures r.Ok? ==> r.value.mode == AssignedDefault && r.value.allowRepeatedUnknown == allowRepeatedUnknown
      ensures r.Ok? <==> AreFree(old(index), UnknownForms(name)) && "--" + name !in old(index)
      ensures r.Err? && r.error == Duplicated <==> "--" + name in old(index)
      ensures r.Err? ==> r.error == PanicDuplicate || (r.error == Duplicated && unchanged(this))
    {
      if "--" + name in index {
        return Err(Duplicated);
      }
      var f := new Flag.Unknown(name, FileAliases(name), allowRepeatedUnknown);
      assert f.GetFormations() == UnknownForms(name);
      var panicked := Add(f);
      if panicked {
        return Err(PanicDuplicate);
      }
      return Ok(f);
    }
  }

  /** The forms of a flag for an unknown name. */
  function UnknownForms(name: string): seq<string> {
    var aliases := FileAliases(name);
    (if name != "" then ["--" + name] else []) + seq(|aliases|, i requires 0 <= i < |aliases| => "--" + aliases[i])
  }

  /** A file may be named by its option with the ending or without it; any other name has one form. */
  lemma UnknownFormsAre(name: string)
    requires name != ""
    ensures forall stem :: name == stem + "-FILE" ==> UnknownForms(name) == ["--" + name, "--" + stem]
    ensures (forall stem :: name != stem + "-FILE") ==> UnknownForms(name) == ["--" + name]
  {
    forall stem | name == stem + "-FILE"
      ensures UnknownForms(name) == ["--" + name, "--" + stem]
    {
      assert name[|stem|..] == "-FILE" && name[..|stem|] == stem;
    }
    if FileAliases(name) != [] {
      assert name == name[..|name| - 5] + "-FILE";
    }
  }

  function FileAliases(name: string): seq<string> {
    var ending := "-FILE";
    if |name| >= |ending| && name[|name| - |ending|..] == ending then [name[..|name| - |ending|]] else []
  }
}
