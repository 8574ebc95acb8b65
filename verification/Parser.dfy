/**
 The argument parser: every token is a positional argument, a value of the flag that is open at that
 point, or an occurrence of a flag. The parser keeps a ghost record of these events, and its
 contracts say that the tokens, the flags and the result are what the events make them.
 */
module ArgumentParser {
  import opened Text
  import opened Flags

  // ----- Events -----

  datatype Event =
    | Positional(text: string)
    | ValueOf(flag: Flag, text: string)
    | Occurrence(flag: Flag, inline: string)  // inline is empty if the token brings no value

  const SPLITTERS := {'=', ':'}

  function Prefix(token: string): string {
    SplitStringWithPrefix(token, SPLITTERS).0
  }

  function Inline(token: string): string {
    SplitStringWithPrefix(token, SPLITTERS).1
  }

  /** The form of a token ends before the first equals sign or colon; the inline value stands behind it. */
  lemma {:induction false} SplitBehind(form: string, rest: string)
    requires '=' !in form && ':' !in form && (rest == "" || rest[0] == '=' || rest[0] == ':')
    ensures Prefix(form + rest) == form && Inline(form + rest) == if rest == "" then "" else rest[1..]
  {
    var token := form + rest;
    if form != "" {
      SplitBehind(form[1..], rest);
      assert token[1..] == form[1..] + rest;
      assert token[0] == form[0] && form[0] in form;
      assert form == [form[0]] + form[1..];
    } else {
      assert token == rest;
    }
  }

  /** A token that is no dash form, or that starts with three dashes, is a value as it stands. */
  predicate IsPlain(token: string) {
    !("-" <= Prefix(token)) || "---" <= Prefix(token)
  }

  /** A dash form that is neither -x nor a long flag, such as -abc; it may be let through as unknown. */
  predicate IsCluster(token: string) {
    "-" <= Prefix(token) && !("--" <= Prefix(token)) && |Prefix(token)| != 2
  }

  /** A token that names a flag: -x, or a long form. */
  predicate IsFlagForm(token: string) {
    !IsPlain(token) && !IsCluster(token) && Prefix(token) != "--"
  }

  /** A token that starts with a single dash, carries no splitter, and is more than the dash. */
  predicate IsDashLeadingValueCandidate(token: string) {
    var (prefix, _, found) := SplitStringWithPrefix(token, SPLITTERS);
    !found && "-" <= prefix && !("--" <= prefix) && |prefix| >= 2
  }

  datatype Origin = NoOrigin | DynamicUnknownFlag | LongFlagCandidate | ShortFlagCandidate

  function FlagOrigin(s: string, dynamicUnknown: bool): Origin {
    var prefix := Prefix(s);
    if dynamicUnknown then DynamicUnknownFlag
    else if "--" <= prefix && |prefix| > 2 then LongFlagCandidate
    else if "-" <= prefix && |prefix| == 2 then ShortFlagCandidate
    else NoOrigin
  }

  type States = map<Flag, FlagState>

  /** What does not change while parsing: the flags as they were found, the tokens, and what a token may be taken for
      when the open flag was opened in some way. */
  datatype Setting = Setting(start: States, args: seq<string>, fits: (Origin, string, Event) -> bool)

  /** The flag that a form leads to. An unknown short flag is filed under a long form of its letter. */
  predicate AnswersTo(known: map<string, Flag>, flag: Flag, form: string) {
    if form in known then flag == known[form]
    else
      && flag.dynamicUnknown
      && (form in flag.GetFormations() || (|form| == 2 && "-" + form in flag.GetFormations()))
  }

  /** The value a token stands for where no flag asks for more: itself, or what is inline behind an unknown form. */
  predicate Reads(token: string, text: string, allowUnknown: bool) {
    if IsPlain(token) then text == token else allowUnknown && IsCluster(token) && text == Inline(token)
  }

  /** A flag that was opened by its long form takes dash forms as values too. */
  predicate TakesDash(flag: Flag, origin: Origin, token: string) {
    origin == LongFlagCandidate && !flag.dynamicUnknown && IsDashLeadingValueCandidate(token)
  }

  /** What a token may be taken for; the origin is that of the open flag. */
  predicate Fits(known: map<string, Flag>, allowUnknown: bool, origin: Origin, token: string, event: Event) {
    match event
    case Positional(text) => Reads(token, text, allowUnknown)
    case ValueOf(flag, text) =>
      if TakesDash(flag, origin, token) then text == token && (|token| == 2 ==> token !in known)
      else Reads(token, text, allowUnknown)
    case Occurrence(flag, inline) =>
      IsFlagForm(token) && AnswersTo(known, flag, Prefix(token)) && inline == Inline(token)
  }

  /** The form is --name or -x, without the splitters that would end it. */
  predicate IsWritten(form: string) {
    && |form| >= 2 && form[0] == '-' && '=' !in form && ':' !in form
    && if form[1] == '-' then |form| > 2 && form[2] != '-' else |form| == 2
  }

  /** The token is the form, alone or with a text behind an equals sign or a colon. */
  predicate Spells(token: string, form: string, text: string) {
    (token == form && text == "") || token == form + "=" + text || token == form + ":" + text
  }

  lemma SpelledForm(token: string, form: string, text: string)
    requires Spells(token, form, text) && '=' !in form && ':' !in form
    ensures Prefix(token) == form && Inline(token) == text
  {
    if token == form {
      SplitBehind(form, "");
      assert form + "" == form;
    } else {
      var c := if token == form + "=" + text then "=" else ":";
      ConcatIsAssociative(form, c, text);
      SplitBehind(form, c + text);
    }
  }

  lemma WrittenFormStarts(form: string)
    requires IsWritten(form)
    ensures "-" <= form && !("---" <= form) && form != "--"
    ensures "--" <= form <==> form[1] == '-'
  {
  }

  lemma KnownFormFits(known: map<string, Flag>, allowUnknown: bool, origin: Origin, form: string, text: string,
                      token: string, event: Event)
    requires IsWritten(form) && form in known && Spells(token, form, text)
    requires Fits(known, allowUnknown, origin, token, event)
    ensures event == Occurrence(known[form], text)
  {
    SpelledForm(token, form, text);
    WrittenFormStarts(form);
    assert IsFlagForm(token);
    assert IsDashLeadingValueCandidate(token) ==> |form| == 2 && token == form;
  }

  lemma LongFormOrigin(form: string)
    requires IsWritten(form) && form[1] == '-'
    ensures FlagOrigin(form, false) == LongFlagCandidate
  {
    SpelledForm(form, form, "");
    WrittenFormStarts(form);
  }

  /** The token has a single dash, is more than the dash, and does not bring a value. */
  predicate IsDashWord(token: string) {
    |token| >= 2 && token[0] == '-' && token[1] != '-' && '=' !in token && ':' !in token
  }

  lemma DashWordFits(known: map<string, Flag>, allowUnknown: bool, token: string, event: Event)
    requires IsDashWord(token) && Fits(known, allowUnknown, LongFlagCandidate, token, event)
    ensures |token| > 2 ==> !event.Occurrence?
    ensures event.Occurrence? && token !in known ==> event.flag.dynamicUnknown
    ensures event.ValueOf? && !event.flag.dynamicUnknown ==> event.text == token
  {
    SplitBehind(token, "");
    assert token + "" == token;
  }

  ghost function Fitting(known: map<string, Flag>, allowUnknown: bool): (Origin, string, Event) -> bool {
    (origin, token, event) => Fits(known, allowUnknown, origin, token, event)
  }

  /** The setting takes tokens for what the known forms say. */
  ghost predicate IsFor(setting: Setting, known: map<string, Flag>, allowUnknown: bool) {
    setting.fits == Fitting(known, allowUnknown)
  }

  function Mentioned(event: Event): set<Flag> {
    match event
    case Positional(_) => {}
    case ValueOf(f, _) => {f}
    case Occurrence(f, _) => {f}
  }

  const FRESH_STATE := FlagState(false, "", [], [])

  /** What an event does to a flag. */
  ghost function AfterEvent(flag: Flag, prior: FlagState, event: Event): FlagState {
    match event
    case Positional(_) => prior
    case ValueOf(f, text) => if f == flag then AfterValue(flag.mode, prior, text) else prior
    case Occurrence(f, inline) =>
      if f != flag then prior
      else
        var occurred := AfterOccurrence(flag.mode, flag.allowRepeatedUnknown, prior).GetOr(prior);
        if inline == "" then occurred else AfterValue(flag.mode, occurred, inline)
  }

  /** The state of a flag once the events have happened to it. */
  ghost function After(flag: Flag, start: FlagState, events: seq<Event>): FlagState {
    if events == [] then start
    else AfterEvent(flag, After(flag, start, events[..|events| - 1]), events[|events| - 1])
  }

  ghost function StateAfter(setting: Setting, flag: Flag, events: seq<Event>): FlagState {
    After(flag, if flag in setting.start then setting.start[flag] else FRESH_STATE, events)
  }

  /** The flag that an event leaves open, given the state it leaves it in. */
  ghost function OpenBy(event: Event, state: FlagState): Option<Flag> {
    match event
    case Positional(_) => None
    case ValueOf(f, _) => if NeedsValue(f.mode, state) then Some(f) else None
    case Occurrence(f, inline) => if inline == "" && NeedsValue(f.mode, state) then Some(f) else None
  }

  /** The flag that waits for a value after the events: the one that the last event gave or fed, if it still needs a
      value. */
  ghost function OpenAfter(setting: Setting, events: seq<Event>): Option<Flag> {
    if events == [] || events[|events| - 1].Positional? then None
    else
      var last := events[|events| - 1];
      OpenBy(last, StateAfter(setting, last.flag, events))
  }

  /** How the flag that the last events gave and fed was written. */
  ghost function OriginAfter(args: seq<string>, events: seq<Event>): Origin
    requires |events| <= |args|
  {
    if events == [] then NoOrigin
    else
      match events[|events| - 1]
      case Positional(_) => NoOrigin
      case ValueOf(_, _) => OriginAfter(args, events[..|events| - 1])
      case Occurrence(f, _) => FlagOrigin(args[|events| - 1], f.dynamicUnknown)
  }

  /** The event may happen next: values go to the open flag and to no other, positional arguments only while none is
      open; a flag that has been given may occur again only if it is repeatable or an unknown flag that may be; and no
      flag that must have a value is left open. */
  ghost predicate MayHappen(setting: Setting, events: seq<Event>, event: Event) {
    match event
    case Positional(_) => OpenAfter(setting, events) == None
    case ValueOf(f, _) => OpenAfter(setting, events) == Some(f) && f.mode != AssignedNone
    case Occurrence(f, inline) =>
      && MayClose(setting, events)
      && AfterOccurrence(f.mode, f.allowRepeatedUnknown, StateAfter(setting, f, events)).Some?
      && (inline != "" ==> f.mode != AssignedNone)
  }

  ghost predicate MayClose(setting: Setting, events: seq<Event>) {
    OpenAfter(setting, events).Some? ==> OpenAfter(setting, events).value.mode != AssignedOnce
  }

  /** The events are those before and one more, which is what the returned text says it is. */
  ghost predicate OneMore(before: seq<Event>, events: seq<Event>, arg: string) {
    && |events| == |before| + 1 && events[..|before|] == before
    && arg == if events[|before|].Positional? then events[|before|].text else ""
  }

  /** What one more event must be: it may happen, it takes the next token for something that fits, and it mentions no
      flag but the given ones. */
  ghost predicate Continues(setting: Setting, events: seq<Event>, event: Event, flags: set<Flag>) {
    && MayHappen(setting, events, event)
    && |events| < |setting.args| && setting.fits(OriginAfter(setting.args, events), setting.args[|events|], event)
    && Mentioned(event) <= flags
  }

  /** The events account for as many tokens, one each and in order, and every one may happen after those before it. */
  ghost predicate IsRun(setting: Setting, events: seq<Event>, flags: set<Flag>) {
    events == [] ||
    (var before := events[..|events| - 1];
     IsRun(setting, before, flags) && Continues(setting, before, events[|events| - 1], flags))
  }

  /** The positional arguments handed out; empty ones are dropped. */
  ghost function Positionals(events: seq<Event>): seq<string> {
    if events == [] then []
    else
      var last := events[|events| - 1];
      Positionals(events[..|events| - 1]) + if last.Positional? && last.text != "" then [last.text] else []
  }

  /** The events go on from the earlier ones, and hand out the arguments. */
  ghost predicate HandsOut(earlier: seq<Event>, events: seq<Event>, arguments: seq<string>) {
    earlier <= events && Positionals(events) == Positionals(earlier) + arguments
  }

  lemma HandsOutOneMore(earlier: seq<Event>, before: seq<Event>, events: seq<Event>, arguments: seq<string>, arg: string)
    requires HandsOut(earlier, before, arguments) && OneMore(before, events, arg)
    ensures HandsOut(earlier, events, if arg == "" then arguments else arguments + [arg])
  {
    assert events[..|events| - 1] == before;
    assert arg != "" ==> Positionals(earlier) + arguments + [arg] == Positionals(earlier) + (arguments + [arg]);
  }

  // ----- Finding and creating flags -----

  class Context {
    const flags: FlagSet
    const unknownFlags: FlagSet?           // null unless the command accepts unknown flags
    const enableUnknownFlag: bool
    const hasPluginSubCommand: bool

    ghost predicate Valid()
      reads flags, unknownFlags
    {
      flags.Valid() && (unknownFlags != null ==>
        unknownFlags != flags && unknownFlags.Valid() && forall f :: f in unknownFlags.flags ==> f.dynamicUnknown)
    }

    ghost function AllFlags(): set<Flag>
      reads flags, unknownFlags
    {
      (set f | f in flags.flags) + if unknownFlags != null then (set f | f in unknownFlags.flags) else {}
    }

    /** No unknown flags are accepted, and none are among the declared ones. */
    ghost predicate KnownOnly()
      reads flags
    {
      unknownFlags == null && forall f :: f in flags.flags ==> !f.dynamicUnknown
    }

    constructor (flags: FlagSet, unknownFlags: FlagSet?, enableUnknownFlag: bool, hasPluginSubCommand: bool)
      ensures this.flags == flags && this.unknownFlags == unknownFlags
      ensures this.enableUnknownFlag == enableUnknownFlag && this.hasPluginSubCommand == hasPluginSubCommand
    {
      this.flags, this.unknownFlags := flags, unknownFlags;
      this.enableUnknownFlag, this.hasPluginSubCommand := enableUnknownFlag, hasPluginSubCommand;
    }

    /** The name under which an unknown flag is filed. */
    function NameOf(form: string): string {
      if |form| == 2 then form[1..] else if |form| > 2 then form[2..] else ""
    }

    predicate AcceptsUnknown(form: string) {
      unknownFlags != null && (|form| == 2 ==> enableUnknownFlag)
    }

    /** The flag that the form leads to without a new one: a known flag or, for a plugin, an unknown one from before. */
    ghost function Existing(form: string): Option<Flag>
      reads flags, unknownFlags
    {
      if form in flags.index then Some(flags.index[form])
      else if AcceptsUnknown(form) && hasPluginSubCommand && "--" + NameOf(form) in unknownFlags.index
      then Some(unknownFlags.index["--" + NameOf(form)])
      else None
    }

    /** Otherwise a flag can be added for the form, under forms that are free. */
    ghost predicate CanCreate(form: string)
      reads flags, unknownFlags
    {
      var name := NameOf(form);
      AcceptsUnknown(form) && "--" + name !in unknownFlags.index && AreFree(unknownFlags.index, UnknownForms(name))
    }

    ghost predicate Detects(form: string)
      reads flags, unknownFlags
    {
      Existing(form).Some? || CanCreate(form)
    }

    /** Finds a flag by its long name, or adds it as unknown where that is allowed. */
    method DetectFlag(name: string) returns (r: Result<Flag>)
      requires Valid() && name != ""
      modifies if unknownFlags != null then {unknownFlags} else {}
      ensures r.Ok? ==> Valid() && Detected(r.value, "--" + name, old(AllFlags()))
      ensures r.Ok? ==> r.value in old(AllFlags()) || fresh(r.value)
      ensures r.Err? && r.error != PanicDuplicate && unknownFlags != null ==> unchanged(unknownFlags)
      ensures r.Ok? <==> old(Detects("--" + name))
      ensures r.Ok? ==> IsFoundOrNew(r.value, old(Existing("--" + name)), old(AllFlags()))
    {
      assert NameOf("--" + name) == name;
      var known := flags.Get(name);
      if known.Some? {
        return Ok(known.value);
      }
      if unknownFlags == null {
        return Err(UnknownFlag);
      }
      r := DetectUnknown(name);
    }

    /** Finds a flag by its letter. An unknown one is filed under the letter as a long name. */
    method DetectFlagByShorthand(c: char) returns (r: Result<Flag>)
      requires Valid()
      modifies if unknownFlags != null then {unknownFlags} else {}
      ensures r.Ok? ==> Valid() && Detected(r.value, ['-', c], old(AllFlags()))
      ensures r.Ok? ==> r.value in old(AllFlags()) || fresh(r.value)
      ensures r.Err? ==> r.error != PanicDuplicate && (unknownFlags != null ==> unchanged(unknownFlags))
      ensures r.Ok? <==> old(Detects(['-', c]))
      ensures r.Ok? ==> IsFoundOrNew(r.value, old(Existing(['-', c])), old(AllFlags()))
    {
      assert NameOf(['-', c]) == [c];
      var known := flags.GetByShorthand(c);
      if known.Some? {
        return Ok(known.value);
      }
      if !enableUnknownFlag || unknownFlags == null {
        return Err(UnknownFlag);
      }
      LetterHasOneForm(c);
      r := DetectUnknown([c]);
      assert "-" + ['-', c] == "--" + [c];
    }

    lemma LetterHasOneForm(c: char)
      ensures UnknownForms([c]) == ["--" + [c]] && NoDuplicates(UnknownForms([c]))
    {
      assert FileAliases([c]) == [];
    }

    method DetectUnknown(name: string) returns (r: Result<Flag>)
      requires Valid() && name != "" && unknownFlags != null
      modifies unknownFlags
      ensures
        var form := "--" + name;
        var found := hasPluginSubCommand && form in old(unknownFlags.index);
        && (r.Ok? <==> found || (form !in old(unknownFlags.index) && AreFree(old(unknownFlags.index), UnknownForms(name))))
        && (r.Ok? ==> IsFoundOrNew(r.value, if found then Some(old(unknownFlags.index)[form]) else None, old(AllFlags())))
        && (r.Err? && r.error == PanicDuplicate ==>
              form !in old(unknownFlags.index) && !AreFree(old(unknownFlags.index), UnknownForms(name)))
      ensures r.Ok? ==> Valid() && Added(r.value, old(AllFlags())) && (r.value in old(AllFlags()) || fresh(r.value))
      ensures r.Ok? ==> r.value.dynamicUnknown && "--" + name in r.value.GetFormations()
      ensures r.Err? && r.error != PanicDuplicate ==> unchanged(unknownFlags)
    {
      if hasPluginSubCommand {
        var f := unknownFlags.Get(name);
        if f.Some? {
          return Ok(f.value);
        }
        r := unknownFlags.AddByName(name, true);
      } else {
        r := unknownFlags.AddByName(name, false);
      }
    }

    /** It is the flag that was there, or a new one. */
    ghost predicate IsFoundOrNew(flag: Flag, existing: Option<Flag>, before: set<Flag>) {
      if existing.Some? then flag == existing.value && flag in before else flag !in before && flag.mode == AssignedDefault
    }

    /** The flag is the only one that can be new; a new one is unassigned. */
    ghost predicate Added(flag: Flag, before: set<Flag>)
      reads flags, unknownFlags, flag
    {
      AllFlags() == before + {flag} && (flag !in before ==> flag.State() == FRESH_STATE)
    }

    ghost predicate Detected(flag: Flag, form: string, before: set<Flag>)
      reads flags, unknownFlags, flag
    {
      AnswersTo(flags.index, flag, form) && Added(flag, before)
    }
  }

  // ----- Appending events -----

  lemma AfterAppended(flag: Flag, start: FlagState, events: seq<Event>, event: Event)
    ensures After(flag, start, events + [event]) == AfterEvent(flag, After(flag, start, events), event)
  {
    assert (events + [event])[..|events|] == events;
  }

  lemma RunAppended(setting: Setting, events: seq<Event>, event: Event, flags: set<Flag>)
    requires IsRun(setting, events, flags) && Continues(setting, events, event, flags)
    ensures IsRun(setting, events + [event], flags)
  {
    assert (events + [event])[..|events|] == events;
  }

  lemma {:induction false} RunWithMoreFlags(setting: Setting, events: seq<Event>, flags: set<Flag>, more: set<Flag>)
    requires IsRun(setting, events, flags) && flags <= more
    ensures IsRun(setting, events, more)
  {
    if events != [] {
      RunWithMoreFlags(setting, events[..|events| - 1], flags, more);
    }
  }

  /** Every token is accounted for by its own event, and each event may happen where it does. */
  lemma {:induction false} RunAccountsForTokens(setting: Setting, events: seq<Event>, flags: set<Flag>, i: nat)
    requires IsRun(setting, events, flags) && i < |events|
    ensures |events| <= |setting.args| && Continues(setting, events[..i], events[i], flags)
  {
    var before := events[..|events| - 1];
    if i < |before| {
      RunAccountsForTokens(setting, before, flags, i);
      assert before[..i] == events[..i];
    }
  }

  predicate IsOfKnown(event: Event) {
    event.Occurrence? ==> !event.flag.dynamicUnknown
  }

  ghost predicate AreOfKnown(events: seq<Event>) {
    events == [] || (AreOfKnown(events[..|events| - 1]) && IsOfKnown(events[|events| - 1]))
  }

  /** What was read decides what the next token is taken for, except that an unknown flag may be created for it. */
  lemma TokenDecidesEvent(
    setting: Setting, known: map<string, Flag>, allowUnknown: bool, events: seq<Event>, e1: Event, e2: Event,
    flags: set<Flag>)
    requires IsFor(setting, known, allowUnknown)
    requires Continues(setting, events, e1, flags) && Continues(setting, events, e2, flags)
    requires IsOfKnown(e1) && IsOfKnown(e2)
    ensures e1 == e2
  {
  }

  /** The tokens, the known forms and the flags as found leave only one way to read the arguments, as long as no unknown
      flags are created. */
  lemma {:induction false} RunIsDetermined(setting: Setting, known: map<string, Flag>, allowUnknown: bool,
                                           run1: seq<Event>, run2: seq<Event>, flags: set<Flag>)
    requires IsFor(setting, known, allowUnknown)
    requires |run1| == |run2| && IsRun(setting, run1, flags) && IsRun(setting, run2, flags)
    requires AreOfKnown(run1) && AreOfKnown(run2)
    ensures run1 == run2
  {
    if run1 != [] {
      var n := |run1| - 1;
      RunIsDetermined(setting, known, allowUnknown, run1[..n], run2[..n], flags);
      LastContinues(setting, run1, flags);
      LastContinues(setting, run2, flags);
      TokenDecidesEvent(setting, known, allowUnknown, run1[..n], run1[n], run2[n], flags);
      assert run1 == run1[..n] + [run1[n]] && run2 == run2[..n] + [run2[n]];
    }
  }

  lemma LastContinues(setting: Setting, run: seq<Event>, flags: set<Flag>)
    requires IsRun(setting, run, flags) && AreOfKnown(run) && run != []
    ensures Continues(setting, run[..|run| - 1], run[|run| - 1], flags) && IsOfKnown(run[|run| - 1])
  {
  }

  ghost predicate AreDeclared(flags: set<Flag>) {
    forall f :: f in flags ==> !f.dynamicUnknown
  }

  lemma {:induction false} RunIsOfKnown(setting: Setting, events: seq<Event>, flags: set<Flag>)
    requires IsRun(setting, events, flags) && AreDeclared(flags)
    ensures AreOfKnown(events)
  {
    if events != [] {
      RunIsOfKnown(setting, events[..|events| - 1], flags);
      assert Mentioned(events[|events| - 1]) <= flags;
    }
  }

  lemma {:induction false} RunPrefix(setting: Setting, events: seq<Event>, flags: set<Flag>, n: nat)
    requires IsRun(setting, events, flags) && n <= |events|
    ensures IsRun(setting, events[..n], flags)
  {
    if n == |events| {
      assert events[..n] == events;
    } else {
      RunPrefix(setting, events[..|events| - 1], flags, n);
      assert events[..|events| - 1][..n] == events[..n];
    }
  }

  /** A run that no event continues. */
  ghost predicate IsStuck(setting: Setting, events: seq<Event>, flags: set<Flag>) {
    && IsRun(setting, events, flags)
    && (forall text :: !Continues(setting, events, Positional(text), flags))
    && (forall f, text :: f in flags ==> !Continues(setting, events, ValueOf(f, text), flags))
    && (forall f, text :: f in flags ==> !Continues(setting, events, Occurrence(f, text), flags))
  }

  lemma NothingContinuesStuck(setting: Setting, events: seq<Event>, flags: set<Flag>, e: Event)
    requires IsStuck(setting, events, flags)
    ensures !Continues(setting, events, e, flags)
  {
  }

  /** Without unknown flags, a run that cannot go on is not left behind by any other. */
  lemma RunIsLongest(setting: Setting, known: map<string, Flag>, allowUnknown: bool,
                     events: seq<Event>, run: seq<Event>, flags: set<Flag>)
    requires IsFor(setting, known, allowUnknown) && AreDeclared(flags)
    requires IsStuck(setting, events, flags) && IsRun(setting, run, flags)
    ensures |run| <= |events|
  {
    if |run| > |events| {
      var n := |events|;
      RunPrefix(setting, run, flags, n);
      RunIsOfKnown(setting, events, flags);
      RunIsOfKnown(setting, run[..n], flags);
      RunIsDetermined(setting, known, allowUnknown, events, run[..n], flags);
      RunAccountsForTokens(setting, run, flags, n);
      NothingContinuesStuck(setting, events, flags, run[n]);
    }
  }

  // ----- What a run makes of a flag -----

  /** The texts that the events give to the flag, inline or as following tokens, in order. */
  ghost function GivenTo(flag: Flag, events: seq<Event>): seq<string> {
    if events == [] then []
    else
      GivenTo(flag, events[..|events| - 1]) +
      match events[|events| - 1]
      case Positional(_) => []
      case ValueOf(f, text) => if f == flag then [text] else []
      case Occurrence(f, inline) => if f == flag && inline != "" then [inline] else []
  }

  ghost function Occurrences(flag: Flag, events: seq<Event>): nat {
    if events == [] then 0
    else
      var last := events[|events| - 1];
      Occurrences(flag, events[..|events| - 1]) + if last.Occurrence? && last.flag == flag then 1 else 0
  }

  /** A repeatable flag has the values it had and then exactly its inline and following values, in order. */
  lemma {:induction false} RepeatableCollectsValues(flag: Flag, start: FlagState, events: seq<Event>)
    requires flag.mode == AssignedRepeatable
    ensures After(flag, start, events).values == start.values + GivenTo(flag, events)
    ensures GivenTo(flag, events) != [] ==>
      After(flag, start, events).value == GivenTo(flag, events)[|GivenTo(flag, events)| - 1]
  {
    if events != [] {
      var before, last := events[..|events| - 1], events[|events| - 1];
      RepeatableCollectsValues(flag, start, before);
      if flag !in Mentioned(last) {
        assert After(flag, start, events) == After(flag, start, before) && GivenTo(flag, events) == GivenTo(flag, before);
      }
    }
  }

  /** A flag that is not reset by a repetition has the text it was given last, or the value it had. */
  lemma {:induction false} ValueIsLastText(flag: Flag, start: FlagState, events: seq<Event>)
    requires flag.mode == AssignedRepeatable || !flag.allowRepeatedUnknown
    ensures
      var texts := GivenTo(flag, events);
      After(flag, start, events).value == if texts == [] then start.value else texts[|texts| - 1]
  {
    if events != [] {
      ValueIsLastText(flag, start, events[..|events| - 1]);
    }
  }

  ghost predicate IsMentioned(flag: Flag, events: seq<Event>) {
    exists i :: 0 <= i < |events| && flag in Mentioned(events[i])
  }

  lemma MentionedByLast(flag: Flag, events: seq<Event>)
    requires events != []
    ensures IsMentioned(flag, events) <==>
      IsMentioned(flag, events[..|events| - 1]) || flag in Mentioned(events[|events| - 1])
  {
    var before := events[..|events| - 1];
    if IsMentioned(flag, before) {
      var i :| 0 <= i < |before| && flag in Mentioned(before[i]);
      assert flag in Mentioned(events[i]);
    }
    if IsMentioned(flag, events) {
      var i :| 0 <= i < |events| && flag in Mentioned(events[i]);
      assert i < |before| ==> flag in Mentioned(before[i]);
    }
  }

  /** A flag counts as given if it was given before, or if an event mentions it. */
  lemma {:induction false} GivenIffMentioned(flag: Flag, start: FlagState, events: seq<Event>)
    ensures After(flag, start, events).isAssigned <==> start.isAssigned || IsMentioned(flag, events)
  {
    if events != [] {
      GivenIffMentioned(flag, start, events[..|events| - 1]);
      MentionedByLast(flag, events);
    }
  }

  /** An unknown flag that may be repeated has the text that its last mention gives, and none if it is only repeated. */
  lemma {:induction false} LastMentionGivesValue(flag: Flag, start: FlagState, events: seq<Event>, i: nat)
    requires flag.mode != AssignedRepeatable && flag.allowRepeatedUnknown
    requires i < |events| && flag in Mentioned(events[i])
    requires forall j :: i < j < |events| ==> flag !in Mentioned(events[j])
    ensures After(flag, start, events).value ==
      if events[i].ValueOf? then events[i].text
      else if events[i].inline != "" then events[i].inline
      else if start.isAssigned || IsMentioned(flag, events[..i]) then ""
      else start.value
  {
    var before := events[..|events| - 1];
    if i < |before| {
      LastMentionGivesValue(flag, start, before, i);
      assert before[..i] == events[..i];
      assert flag !in Mentioned(events[|before|]);
    } else {
      GivenIffMentioned(flag, start, before);
      if !After(flag, start, before).isAssigned {
        UngivenIsAsBefore(flag, start, before);
      }
    }
  }

  /** A flag may occur unless the open flag must get its value first, it was given before and may not be repeated, or the
      token brings a value that it does not take. */
  lemma MayOccurIff(flag: Flag, setting: Setting, events: seq<Event>, inline: string)
    ensures MayHappen(setting, events, Occurrence(flag, inline)) <==>
      && (OpenAfter(setting, events) == None || OpenAfter(setting, events).value.mode != AssignedOnce)
      && (flag.mode == AssignedRepeatable || flag.allowRepeatedUnknown
          || !(StateAfter(setting, flag, []).isAssigned || IsMentioned(flag, events)))
      && (inline == "" || flag.mode != AssignedNone)
  {
    GivenIffMentioned(flag, StateAfter(setting, flag, []), events);
  }

  /** A flag that may not be repeated occurs at most once. */
  lemma {:induction false} OccursOnce(flag: Flag, setting: Setting, events: seq<Event>, flags: set<Flag>)
    requires IsRun(setting, events, flags) && flag.mode != AssignedRepeatable && !flag.allowRepeatedUnknown
    ensures Occurrences(flag, events) <=
      if !StateAfter(setting, flag, []).isAssigned && StateAfter(setting, flag, events).isAssigned then 1 else 0
  {
    if events != [] {
      OccursOnce(flag, setting, events[..|events| - 1], flags);
      GivenIffMentioned(flag, StateAfter(setting, flag, []), events[..|events| - 1]);
    }
  }

  /** A flag that no event mentions is as it was. */
  lemma {:induction false} UnmentionedAfter(flag: Flag, setting: Setting, events: seq<Event>, flags: set<Flag>)
    requires IsRun(setting, events, flags) && flag !in flags
    ensures StateAfter(setting, flag, events) == StateAfter(setting, flag, [])
  {
    if events != [] {
      UnmentionedAfter(flag, setting, events[..|events| - 1], flags);
    }
  }

  /** A flag that does not count as given is as it was. */
  lemma {:induction false} UngivenIsAsBefore(flag: Flag, start: FlagState, events: seq<Event>)
    requires !After(flag, start, events).isAssigned
    ensures After(flag, start, events) == start
  {
    if events != [] {
      UngivenIsAsBefore(flag, start, events[..|events| - 1]);
    }
  }

  /** A flag given without a value waits for one if it is repeatable, or if it has none and is to have one. */
  lemma GivenFlagWaits(setting: Setting, events: seq<Event>, flag: Flag)
    requires events != [] && events[|events| - 1] == Occurrence(flag, "")
    ensures OpenAfter(setting, events) ==
      match flag.mode {
        case AssignedNone => None
        case AssignedDefault => if StateAfter(setting, flag, events).value == "" then Some(flag) else None
        case AssignedOnce => if StateAfter(setting, flag, events).value == "" then Some(flag) else None
        case AssignedRepeatable => Some(flag)
      }
  {
  }

  /** A flag that had no value before the first token has none when it is given without one, unless it is repeatable. */
  lemma GivenFlagIsEmpty(setting: Setting, events: seq<Event>, flags: set<Flag>, flag: Flag)
    requires IsRun(setting, events, flags) && events != [] && events[|events| - 1] == Occurrence(flag, "")
    requires StateAfter(setting, flag, []).value == "" && flag.mode != AssignedRepeatable
    ensures StateAfter(setting, flag, events).value == ""
  {
    var before := events[..|events| - 1];
    if !StateAfter(setting, flag, before).isAssigned {
      UngivenIsAsBefore(flag, StateAfter(setting, flag, []), before);
    }
  }

  /** A flag that was fed waits for more if it is repeatable, or if what it got is empty and it takes a value. */
  lemma FedFlagWaits(setting: Setting, events: seq<Event>, flag: Flag, text: string)
    requires events != [] && events[|events| - 1] == ValueOf(flag, text)
    ensures OpenAfter(setting, events) ==
      match flag.mode {
        case AssignedNone => None
        case AssignedDefault => if text == "" then Some(flag) else None
        case AssignedOnce => if text == "" then Some(flag) else None
        case AssignedRepeatable => Some(flag)
      }
  {
  }

  /** A new flag may be given wherever the open one may be closed. */
  lemma NewFlagMayOccur(flag: Flag, setting: Setting, events: seq<Event>, flags: set<Flag>, inline: string)
    requires IsRun(setting, events, flags) && flag !in flags && flag !in setting.start && flag.mode == AssignedDefault
    ensures MayHappen(setting, events, Occurrence(flag, inline)) <==> MayClose(setting, events)
  {
    UnmentionedAfter(flag, setting, events, flags);
  }

  // ----- The parser -----

  class Parser {
    const args: seq<string>
    const context: Context
    const allowUnknown: bool
    var current: nat
    var currentFlag: Flag?
    var currentFlagOrigin: Origin
    ghost const setting: Setting
    ghost var events: seq<Event>    // what the tokens read so far were taken for

    ghost function Footprint(): set<object>
      reads context.flags, context.unknownFlags
    {
      {context.flags} + (if context.unknownFlags != null then {context.unknownFlags} else {}) + context.AllFlags()
    }

    /** What reading may change: unknown flags may be added, and flags take values. */
    ghost function Changeable(): set<object>
      reads context.flags, context.unknownFlags
    {
      (if context.unknownFlags != null then {context.unknownFlags} else {}) + context.AllFlags()
    }

    ghost predicate Consistent()
      reads this`events, this`currentFlag, this`currentFlagOrigin, Footprint()
    {
      && context.Valid()
      && setting.args == args
      && setting.start.Keys <= context.AllFlags()
      && (forall f :: f in context.AllFlags() ==> f.State() == StateAfter(setting, f, events))
      && OpenAfter(setting, events) == (if currentFlag == null then None else Some(currentFlag))
      && |events| <= |args| && (currentFlag != null ==> currentFlagOrigin == OriginAfter(args, events))
      && IsRun(setting, events, context.AllFlags())
    }

    ghost predicate Valid()
      reads this, Footprint()
    {
      current == |events| && Consistent() && IsFor(setting, context.flags.index, allowUnknown)
    }

    constructor (args: seq<string>, context: Context, allowUnknown: bool)
      requires context.Valid()
      ensures this.args == args && this.context == context && this.allowUnknown == allowUnknown
      ensures Valid() && current == 0 && events == []
      ensures setting.start == map f | f in context.AllFlags() :: f.State()
    {
      this.args, this.context, this.allowUnknown := args, context, allowUnknown;
      current, currentFlag, currentFlagOrigin := 0, null, NoOrigin;
      setting := Setting(map f | f in context.AllFlags() :: f.State(), args, Fitting(context.flags.index, allowUnknown));
      events := [];
    }

    /** The open flag always needs a value. */
    lemma OpenFlagNeedsValue()
      requires Consistent() && currentFlag != null
      ensures currentFlag in context.AllFlags() && currentFlag.NeedValue()
      ensures currentFlag.mode == AssignedRepeatable || (currentFlag.mode != AssignedNone && currentFlag.value == "")
    {
      assert Continues(setting, events[..|events| - 1], events[|events| - 1], context.AllFlags());
    }

    predicate CanConsumeDashLeadingValue(s: string)
      reads this, currentFlag
    {
      && currentFlag != null
      && currentFlagOrigin == LongFlagCandidate
      && !currentFlag.dynamicUnknown
      && currentFlag.NeedValue()
      && IsDashLeadingValueCandidate(s)
    }

    /** A token is a value as it stands, a cluster that is let through, or a flag that is there or can be added. */
    ghost predicate CanParse(s: string)
      reads context.flags, context.unknownFlags
    {
      IsPlain(s) || (IsCluster(s) && allowUnknown) || (IsFlagForm(s) && context.Detects(Prefix(s)))
    }

    /** What cannot be parsed may still be a value of the open flag. */
    ghost predicate CanRead(s: string)
      reads context.flags, context.unknownFlags, this`currentFlag, this`currentFlagOrigin
    {
      CanParse(s) || (currentFlag != null && TakesDash(currentFlag, currentFlagOrigin, s))
    }

    /** The flag that the token names may be given here. */
    ghost predicate MayOccur(s: string)
      reads context.flags, context.unknownFlags, this`events
    {
      var existing := context.Existing(Prefix(s));
      if existing.Some? then MayHappen(setting, events, Occurrence(existing.value, Inline(s))) else MayClose(setting, events)
    }

    /** The token is not refused. */
    ghost predicate MayRead(s: string)
      reads context.flags, context.unknownFlags, this`events, this`currentFlag, this`currentFlagOrigin
    {
      CanRead(s) && (IsFlagForm(s) && context.Detects(Prefix(s)) ==> MayOccur(s))
    }

    /** Takes a token for a flag and what follows its splitter, or for a value. */
    method ParseCommandArg(s: string) returns (flag: Flag?, value: string, error: Option<Error>)
      requires context.Valid()
      modifies if context.unknownFlags != null then {context.unknownFlags} else {}
      ensures error.None? ==> context.Valid()
      ensures error.None? && flag != null ==>
        && context.Detected(flag, Prefix(s), old(context.AllFlags()))
        && (flag in old(context.AllFlags()) || fresh(flag))
        && context.IsFoundOrNew(flag, old(context.Existing(Prefix(s))), old(context.AllFlags()))
        && value == Inline(s)
      ensures error.None? ==> (flag != null <==> IsFlagForm(s))
      ensures error.None? <==> old(CanParse(s))
      ensures error == Some(PanicDuplicate) ==> "--" <= Prefix(s)
      ensures error.None? && flag == null ==> Reads(s, value, allowUnknown)
      ensures flag == null && error != Some(PanicDuplicate) && context.unknownFlags != null ==> unchanged(context.unknownFlags)
      ensures error.Some? ==> flag == null
    {
      var (prefix, inline, found) := SplitStringWithPrefix(s, SPLITTERS);
      flag, value, error := null, inline, None;
      if "-" <= prefix {
        if "---" <= prefix {
          value := s;
        } else if "--" <= prefix {
          if |prefix| > 2 {
            assert "--" + prefix[2..] == prefix;
            var detected := context.DetectFlag(prefix[2..]);
            if detected.Ok? { flag := detected.value; } else { error := Some(detected.error); }
          } else {
            error := Some(DashDash);
          }
        } else if |prefix| == 2 {
          assert ['-', prefix[1]] == prefix;
          var detected := context.DetectFlagByShorthand(prefix[1]);
          if detected.Ok? { flag := detected.value; } else { error := Some(detected.error); }
        } else if !allowUnknown {
          error := Some(UnsupportedForm);
        }
      } else {
        value := s;
      }
    }

    /** The parser is consistent after one more event, once the flags are what the event makes them. */
    twostate lemma EventTaken(event: Event)
      requires old(Consistent()) && events == old(events) + [event]
      requires unchanged(context.flags) && (context.unknownFlags != null ==> unchanged(context.unknownFlags))
      requires Continues(setting, old(events), event, context.AllFlags())
      requires forall f :: f in context.AllFlags() ==> f.State() == AfterEvent(f, old(f.State()), event)
      requires forall f :: f in Mentioned(event) ==>
        OpenBy(event, f.State()) == (if currentFlag == null then None else Some(currentFlag))
      requires event.Positional? ==> currentFlag == null
      requires currentFlag != null && event.Occurrence? ==>
        currentFlagOrigin == FlagOrigin(args[|old(events)|], event.flag.dynamicUnknown)
      requires currentFlag != null && event.ValueOf? ==> currentFlagOrigin == old(currentFlagOrigin)
      ensures Consistent()
    {
      RunAppended(setting, old(events), event, context.AllFlags());
      assert events[..|old(events)|] == old(events);
      forall f | f in context.AllFlags()
        ensures f.State() == StateAfter(setting, f, events)
      {
        AfterAppended(f, if f in setting.start then setting.start[f] else FRESH_STATE, old(events), event);
      }
    }

    /** The token is an occurrence of the flag with the inline value. */
    ghost predicate TokenIs(flag: Flag, value: string, token: string)
      reads this`events
    {
      |events| <= |args| && setting.fits(OriginAfter(args, events), token, Occurrence(flag, value))
    }

    /** The token is the value, for the open flag if there is one. */
    ghost predicate ReadsHere(token: string, value: string)
      reads this`events, this`currentFlag
    {
      var event := if currentFlag == null then Positional(value) else ValueOf(currentFlag, value);
      |events| <= |args| && setting.fits(OriginAfter(args, events), token, event)
    }

    /** A token that is not a flag goes to the open flag, or is an argument. */
    method TakeValue(value: string) returns (arg: string, error: Option<Error>)
      requires Consistent() && |events| < |args|
      requires ReadsHere(args[|events|], value)
      modifies this`currentFlag, this`currentFlagOrigin, this`events, if currentFlag != null then {currentFlag} else {}
      ensures error.None?
      ensures Consistent() && OneMore(old(events), events, arg) && Footprint() == old(Footprint())
    {
      arg, error := "", None;
      ghost var before, open := events, currentFlag;
      if currentFlag != null {
        OpenFlagNeedsValue();
        error := currentFlag.Assign(value);
        events := before + [ValueOf(open, value)];
        if !currentFlag.NeedValue() {
          currentFlag, currentFlagOrigin := null, NoOrigin;
        }
      } else {
        arg := value;
        events := before + [Positional(value)];
      }
      EventTaken(events[|before|]);
    }

    /** Closes the open flag, unless its value is missing. */
    method CloseFlag() returns (error: Option<Error>)
      modifies this`currentFlag, this`currentFlagOrigin
      ensures error == if old(currentFlag) == null then None else old(currentFlag.Validate())
      ensures currentFlag == if error.None? then null else old(currentFlag)
    {
      if currentFlag == null {
        return None;
      }
      error := currentFlag.Validate();
      if error.None? {
        currentFlag, currentFlagOrigin := null, NoOrigin;
      }
    }

    /** The flag takes the inline value, or opens if it needs one. */
    method FeedOrOpen(flag: Flag, value: string, s: string) returns (error: Option<Error>)
      requires currentFlag == null
      modifies this`currentFlag, this`currentFlagOrigin, flag
      ensures error.None? <==> value == "" || flag.mode != AssignedNone
      ensures error.None? ==>
        flag.State() == if value == "" then old(flag.State()) else AfterValue(flag.mode, old(flag.State()), value)
      ensures error.None? ==> currentFlag == if value == "" && flag.NeedValue() then flag else null
      ensures error.None? && currentFlag != null ==> currentFlagOrigin == FlagOrigin(s, flag.dynamicUnknown)
    {
      error := None;
      if value != "" {
        error := flag.Assign(value);
      } else if flag.NeedValue() {
        currentFlag, currentFlagOrigin := flag, FlagOrigin(s, flag.dynamicUnknown);
      }
    }

    /** A flag occurs. What was open is closed, after a check; the flag takes the inline value, or opens. */
    method GiveFlag(flag: Flag, value: string, s: string) returns (error: Option<Error>)
      requires currentFlag != null ==> currentFlag.NeedValue()
      modifies this`currentFlag, this`currentFlagOrigin, flag
      ensures error.None? <==>
        && (old(currentFlag) != null ==> old(currentFlag).mode != AssignedOnce)
        && AfterOccurrence(flag.mode, flag.allowRepeatedUnknown, old(flag.State())).Some?
        && (value != "" ==> flag.mode != AssignedNone)
      ensures error.None? ==> flag.State() == AfterEvent(flag, old(flag.State()), Occurrence(flag, value))
      ensures error.None? ==> currentFlag == if value == "" && flag.NeedValue() then flag else null
      ensures error.None? && currentFlag != null ==> currentFlagOrigin == FlagOrigin(s, flag.dynamicUnknown)
    {
      error := flag.SetIsAssigned();
      if error.Some? {
        return;
      }
      error := CloseFlag();
      if error.Some? {
        return;
      }
      error := FeedOrOpen(flag, value, s);
    }

    method TakeFlag(flag: Flag, value: string, s: string) returns (error: Option<Error>)
      requires Consistent() && |events| < |args| && flag in context.AllFlags()
      requires s == args[|events|] && TokenIs(flag, value, s)
      modifies this`currentFlag, this`currentFlagOrigin, this`events, flag
      ensures error.None? <==> MayHappen(setting, old(events), Occurrence(flag, value))
      ensures error.Some? ==> events == old(events)
      ensures error.None? ==> Consistent() && OneMore(old(events), events, "") && Footprint() == old(Footprint())
    {
      ghost var before := events;
      if currentFlag != null {
        OpenFlagNeedsValue();
      }
      error := GiveFlag(flag, value, s);
      if error.None? {
        events := before + [Occurrence(flag, value)];
        EventTaken(Occurrence(flag, value));
      }
    }

    /** A flag found or added while parsing leaves the parser consistent. */
    twostate lemma DetectedKeepsConsistent(new flag: Flag)
      requires old(Consistent()) && context.Valid()
      requires unchanged(this`events) && unchanged(this`currentFlag) && unchanged(this`currentFlagOrigin)
      requires unchanged(context.flags)
      requires forall f :: f in old(context.AllFlags()) ==> unchanged(f)
      requires context.AllFlags() == old(context.AllFlags()) + {flag}
      requires flag !in old(context.AllFlags()) ==> flag.State() == FRESH_STATE
      ensures Consistent()
    {
      if flag !in old(context.AllFlags()) {
        UnmentionedAfter(flag, setting, events, old(context.AllFlags()));
      }
      RunWithMoreFlags(setting, events, old(context.AllFlags()), context.AllFlags());
    }

    /** So does a step that changes nothing. */
    twostate lemma NoChangeKeepsConsistent()
      requires old(Consistent())
      requires unchanged(this`events) && unchanged(this`currentFlag) && unchanged(this`currentFlagOrigin)
      requires unchanged(context.flags) && (context.unknownFlags != null ==> unchanged(context.unknownFlags))
      requires forall f :: f in old(context.AllFlags()) ==> unchanged(f)
      ensures Consistent() && Footprint() == old(Footprint())
    {
    }

    method TakeToken(flag: Flag?, value: string, s: string) returns (arg: string, error: Option<Error>)
      requires Consistent() && |events| < |args| && s == args[|events|]
      requires flag != null ==> flag in context.AllFlags() && TokenIs(flag, value, s)
      requires flag == null ==> ReadsHere(s, value)
      modifies this`currentFlag, this`currentFlagOrigin, this`events, context.AllFlags()
      ensures error.None? <==> flag == null || MayHappen(setting, old(events), Occurrence(flag, value))
      ensures error.Some? ==> events == old(events)
      ensures error.None? ==> Consistent() && OneMore(old(events), events, arg) && Footprint() == old(Footprint())
    {
      if flag == null {
        if currentFlag != null {
          OpenFlagNeedsValue();
        }
        arg, error := TakeValue(value);
      } else {
        arg := "";
        error := TakeFlag(flag, value, s);
      }
    }

    /** Takes a token for a flag or for a value; the open flag may take one that would be an error otherwise. */
    method ParseOrConsume(s: string) returns (flag: Flag?, value: string, error: Option<Error>)
      requires context.Valid() && (currentFlag != null ==> currentFlag.NeedValue())
      modifies if context.unknownFlags != null then {context.unknownFlags} else {}
      ensures error.None? <==> old(CanRead(s))
      ensures error.None? ==> (flag != null <==> old(IsFlagForm(s) && context.Detects(Prefix(s))))
      ensures error.None? ==> context.Valid()
      ensures error.None? && flag != null ==>
        && context.Detected(flag, Prefix(s), old(context.AllFlags()))
        && context.IsFoundOrNew(flag, old(context.Existing(Prefix(s))), old(context.AllFlags()))
        && (flag in old(context.AllFlags()) || fresh(flag))
        && Fits(context.flags.index, allowUnknown, NoOrigin, s, Occurrence(flag, value))
      ensures error.None? && flag == null ==>
        && (context.unknownFlags != null ==> unchanged(context.unknownFlags))
        && Fits(context.flags.index, allowUnknown, currentFlagOrigin, s,
                if currentFlag == null then Positional(value) else ValueOf(currentFlag, value))
      ensures error.Some? ==> flag == null
    {
      flag, value, error := ParseCommandArg(s);
      if error.Some? {
        if error != Some(PanicDuplicate) && CanConsumeDashLeadingValue(s) {
          value, error := s, None;
        }
      } else if flag == null && value == "" && CanConsumeDashLeadingValue(s) {
        value := s;
      }
    }

    method ReadToken(s: string) returns (flag: Flag?, value: string, error: Option<Error>)
      requires Consistent() && IsFor(setting, context.flags.index, allowUnknown)
      modifies if context.unknownFlags != null then {context.unknownFlags} else {}
      ensures error.None? <==> old(CanRead(s))
      ensures error.None? ==> (flag != null <==> old(IsFlagForm(s) && context.Detects(Prefix(s))))
      ensures error.None? && flag != null ==> (MayHappen(setting, events, Occurrence(flag, value)) <==> old(MayOccur(s)))
      ensures error.None? ==> Consistent() && fresh(Footprint() - old(Footprint()))
      ensures error.None? && flag != null ==> flag in context.AllFlags() && TokenIs(flag, value, s)
      ensures error.None? && flag == null ==> ReadsHere(s, value)
    {
      if currentFlag != null {
        OpenFlagNeedsValue();
      }
      flag, value, error := ParseOrConsume(s);
      if flag != null {
        DetectedKeepsConsistent(flag);
        if flag !in old(context.AllFlags()) {
          NewFlagMayOccur(flag, setting, events, old(context.AllFlags()), value);
        }
      } else if error.None? {
        NoChangeKeepsConsistent();
      }
    }

    /** Without unknown flags a token is read exactly if some event goes on from those before. */
    lemma NextEventIff(s: string)
      requires Consistent() && IsFor(setting, context.flags.index, allowUnknown) && context.KnownOnly()
      requires |events| < |args| && s == args[|events|]
      ensures MayRead(s) <==> exists e :: Continues(setting, events, e, context.AllFlags())
    {
      if IsFlagForm(s) && Prefix(s) in context.flags.index {
        var e := Occurrence(context.flags.index[Prefix(s)], Inline(s));
        assert MayRead(s) <==> Continues(setting, events, e, context.AllFlags());
      } else if MayRead(s) {
        ValueGoesOn(s);
      }
      if e :| Continues(setting, events, e, context.AllFlags()) {
        EventIsRead(s, e);
      }
    }

    lemma ValueGoesOn(s: string)
      requires Consistent() && IsFor(setting, context.flags.index, allowUnknown) && context.KnownOnly()
      requires |events| < |args| && s == args[|events|]
      requires CanRead(s) && !(IsFlagForm(s) && context.Detects(Prefix(s)))
      ensures exists e :: Continues(setting, events, e, context.AllFlags())
    {
      var dash := currentFlag != null && TakesDash(currentFlag, currentFlagOrigin, s);
      var text := if IsPlain(s) || dash then s else Inline(s);
      var e := if currentFlag == null then Positional(text) else ValueOf(currentFlag, text);
      if currentFlag != null {
        OpenFlagNeedsValue();
      }
      assert Fits(context.flags.index, allowUnknown, OriginAfter(args, events), s, e);
      assert Continues(setting, events, e, context.AllFlags());
    }

    lemma EventIsRead(s: string, e: Event)
      requires Consistent() && IsFor(setting, context.flags.index, allowUnknown) && context.KnownOnly()
      requires |events| < |args| && s == args[|events|]
      requires Continues(setting, events, e, context.AllFlags())
      ensures MayRead(s)
    {
      assert Fits(context.flags.index, allowUnknown, OriginAfter(args, events), s, e);
    }

    method ReadAndTake(s: string) returns (arg: string, error: Option<Error>)
      requires Consistent() && IsFor(setting, context.flags.index, allowUnknown)
      requires |events| < |args| && s == args[|events|]
      modifies this`currentFlag, this`currentFlagOrigin, this`events, Changeable()
      ensures error.None? <==> old(MayRead(s))
      ensures error.Some? ==> events == old(events)
      ensures error.None? ==> Consistent() && OneMore(old(events), events, arg)
      ensures error.None? ==> IsFor(setting, context.flags.index, allowUnknown) && fresh(Changeable() - old(Changeable()))
    {
      arg := "";
      var flag, value;
      flag, value, error := ReadToken(s);
      if error.None? {
        arg, error := TakeToken(flag, value, s);
      }
    }

    /** Without unknown flags a token is refused only where no event could go on. */
    method ReadOrRefuse(s: string) returns (arg: string, error: Option<Error>)
      requires Consistent() && IsFor(setting, context.flags.index, allowUnknown)
      requires |events| < |args| && s == args[|events|]
      modifies this`currentFlag, this`currentFlagOrigin, this`events, Changeable()
      ensures error.None? <==> old(MayRead(s))
      ensures error.Some? ==> events == old(events)
      ensures error.Some? && context.KnownOnly() ==> IsStuck(setting, events, context.AllFlags())
      ensures error.None? ==> Consistent() && OneMore(old(events), events, arg)
      ensures error.None? ==> IsFor(setting, context.flags.index, allowUnknown) && fresh(Changeable() - old(Changeable()))
    {
      if context.KnownOnly() {
        NextEventIff(s);
      }
      arg, error := ReadAndTake(s);
    }

    /** Reads one token, unless it is refused: it is added to the record as one event, and the flags are what the event
        makes them. */
    method ReadNext() returns (arg: string, more: bool, error: Option<Error>)
      requires Valid()
      modifies this, Changeable()
      ensures more <==> old(current) < |args|
      ensures !more ==> error.None? && arg == "" && Valid() && events == old(events)
      ensures more ==> (error.None? <==> old(MayRead(args[current])))
      ensures error.Some? ==> events == old(events)
      ensures error.Some? && context.KnownOnly() ==> IsStuck(setting, events, context.AllFlags())
      ensures more && error.None? ==> Valid() && OneMore(old(events), events, arg) && fresh(Changeable() - old(Changeable()))
    {
      if current >= |args| {
        return "", false, None;
      }
      var s := args[current];
      more := true;
      arg, error := ReadOrRefuse(s);
      current := current + 1;
    }

    lemma NoFlagIsOpenAfter(before: seq<Event>, arg: string)
      requires Consistent() && OneMore(before, events, arg) && arg != ""
      ensures currentFlag == null
    {
      assert events[|events| - 1].Positional?;
    }

    /** Reads on to the next argument; flags and their values before it are taken on the way. Then no flag is open, and
        the flags may be exchanged for those of a sub-command. */
    method ReadNextArg() returns (arg: string, more: bool, error: Option<Error>)
      requires Valid()
      modifies this, Changeable()
      ensures error.None? ==> Valid() && HandsOut(old(events), events, if arg == "" then [] else [arg])
      ensures error.None? && arg == "" ==> current == |args|
      ensures error.None? && arg != "" ==> currentFlag == null
      ensures error.Some? ==> HandsOut(old(events), events, [])
      ensures error.Some? && context.KnownOnly() ==> IsStuck(setting, events, context.AllFlags())
    {
      while true
        invariant Valid() && fresh(Changeable() - old(Changeable())) && HandsOut(old(events), events, [])
        decreases |args| - current
      {
        ghost var before := events;
        arg, more, error := ReadNext();
        if error.Some? || !more {
          return;
        }
        HandsOutOneMore(old(events), before, events, [], arg);
        if arg != "" {
          NoFlagIsOpenAfter(before, arg);
          return;
        }
      }
    }

    /** Reads all tokens. The result is the arguments among them, in order. Without unknown flags it succeeds exactly if
        there is a run that accounts for every token. */
    method ReadAll() returns (r: seq<string>, error: Option<Error>)
      requires Valid()
      modifies this, Changeable()
      ensures error.None? ==> Valid() && current == |args| == |events| && HandsOut(old(events), events, r)
      ensures context.KnownOnly() ==>
        (error.None? <==> exists run :: |run| == |args| && IsRun(setting, run, context.AllFlags()))
      ensures error.None? ==> forall i :: IsFormAndToken(i) ==>
        var flag := context.flags.index[args[i]];
        events[i + 1] == if flag.mode == AssignedNone then Positional(args[i + 1]) else ValueOf(flag, args[i + 1])
    {
      r, error := ReadOn();
      if error.None? {
        forall i | IsFormAndToken(i)
          ensures
            var flag := context.flags.index[args[i]];
            events[i + 1] == if flag.mode == AssignedNone then Positional(args[i + 1]) else ValueOf(flag, args[i + 1])
        {
          TokenBehindForm(i);
        }
      }
      if context.KnownOnly() && error.Some? {
        forall run | IsRun(setting, run, context.AllFlags())
          ensures |run| < |args|
        {
          RunIsLongest(setting, context.flags.index, allowUnknown, events, run, context.AllFlags());
        }
      }
    }

    method ReadOn() returns (r: seq<string>, error: Option<Error>)
      requires Valid()
      modifies this, Changeable()
      ensures error.None? ==> Valid() && current == |args| == |events| && HandsOut(old(events), events, r)
      ensures error.Some? ==> HandsOut(old(events), events, r) && |events| < |args|
      ensures error.Some? && context.KnownOnly() ==> IsStuck(setting, events, context.AllFlags())
    {
      r := [];
      while true
        invariant Valid() && fresh(Changeable() - old(Changeable())) && HandsOut(old(events), events, r)
        decreases |args| - current
      {
        ghost var before := events;
        var arg, more;
        arg, more, error := ReadNext();
        if error.Some? {
          return;
        }
        if more {
          HandsOutOneMore(old(events), before, events, r, arg);
        }
        if arg != "" {
          r := r + [arg];
        }
        if !more {
          return;
        }
      }
    }

    // ----- What a token is, said of the tokens themselves -----

    ghost function StartValue(flag: Flag): string {
      StateAfter(setting, flag, []).value
    }

    /** A form that is known is an occurrence of its flag, with whatever stands behind an equals sign or a colon. */
    lemma KnownFormIsOccurrence(i: nat, form: string, text: string)
      requires Valid() && i < current <= |args|
      requires IsWritten(form) && form in context.flags.index
      requires Spells(args[i], form, text)
      ensures events[i] == Occurrence(context.flags.index[form], text)
    {
      TokenIsAccountedFor(i);
      KnownFormFits(context.flags.index, allowUnknown, OriginAfter(args, events[..i]), form, text, args[i], events[i]);
    }

    /** A token that does not start with a dash is the value of the flag given or fed just before it, if that flag waits;
        else it is an argument. */
    lemma PlainTokenGoesTo(i: nat)
      requires Valid() && i < current <= |args| && !("-" <= args[i])
      ensures events[i] ==
        if i == 0 then Positional(args[i])
        else
          match events[i - 1]
          case Positional(_) => Positional(args[i])
          case Occurrence(f, inline) =>
            var waits := f.mode == AssignedRepeatable || StateAfter(setting, f, events[..i]).value == "";
            if inline == "" && f.mode != AssignedNone && waits then ValueOf(f, args[i]) else Positional(args[i])
          case ValueOf(f, text) =>
            if f.mode == AssignedRepeatable || (text == "" && f.mode != AssignedNone) then ValueOf(f, args[i])
            else Positional(args[i])
    {
      TokenIsAccountedFor(i);
      if i > 0 {
        var before := events[..i];
        assert before[|before| - 1] == events[i - 1];
        match events[i - 1]
        case Positional(_) =>
        case Occurrence(f, inline) =>
          if inline == "" {
            GivenFlagWaits(setting, before, f);
          }
        case ValueOf(f, text) =>
          FedFlagWaits(setting, before, f, text);
      }
    }

    /** A known form of a flag without a value, and a token behind it that does not start with a dash. */
    ghost predicate IsFormAndToken(i: int)
      reads context.flags
    {
      && 0 <= i && i + 1 < |args| && IsWritten(args[i]) && !("-" <= args[i + 1])
      && args[i] in context.flags.index && StartValue(context.flags.index[args[i]]) == ""
    }

    lemma FormLeavesEmpty(i: nat)
      requires Valid() && i < current <= |args| && events[i].Occurrence? && events[i].inline == ""
      requires StartValue(events[i].flag) == "" && events[i].flag.mode != AssignedRepeatable
      ensures StateAfter(setting, events[i].flag, events[..i + 1]).value == ""
    {
      RunPrefix(setting, events, context.AllFlags(), i + 1);
      GivenFlagIsEmpty(setting, events[..i + 1], context.AllFlags(), events[i].flag);
    }

    /** The token is the value of the flag, unless the flag takes none. */
    lemma TokenBehindForm(i: nat)
      requires Valid() && i + 1 < current && IsFormAndToken(i)
      ensures events[i + 1] ==
        var flag := context.flags.index[args[i]];
        if flag.mode == AssignedNone then Positional(args[i + 1]) else ValueOf(flag, args[i + 1])
    {
      KnownFormIsOccurrence(i, args[i], "");
      PlainTokenGoesTo(i + 1);
      if events[i].flag.mode != AssignedRepeatable {
        FormLeavesEmpty(i);
      }
    }

    lemma LongFormOpens(i: nat)
      requires Valid() && i < current <= |args|
      requires IsWritten(args[i]) && args[i][1] == '-' && args[i] in context.flags.index
      requires !context.flags.index[args[i]].dynamicUnknown && context.flags.index[args[i]].mode != AssignedNone
      requires StartValue(context.flags.index[args[i]]) == ""
      ensures OpenAfter(setting, events[..i + 1]) == Some(context.flags.index[args[i]])
      ensures OriginAfter(args, events[..i + 1]) == LongFlagCandidate
    {
      var before, flag := events[..i + 1], context.flags.index[args[i]];
      KnownFormIsOccurrence(i, args[i], "");
      assert before[|before| - 1] == Occurrence(flag, "");
      if flag.mode != AssignedRepeatable {
        FormLeavesEmpty(i);
      }
      GivenFlagWaits(setting, before, flag);
      LongFormOrigin(args[i]);
    }

    /** A word with a single dash that is no known form is the value of the declared flag whose long form stands right
        before it. */
    lemma DashWordBehindLongForm(i: nat)
      requires Valid() && i + 1 < current <= |args|
      requires IsWritten(args[i]) && args[i][1] == '-' && args[i] in context.flags.index
      requires !context.flags.index[args[i]].dynamicUnknown && context.flags.index[args[i]].mode != AssignedNone
      requires StartValue(context.flags.index[args[i]]) == ""
      requires IsDashWord(args[i + 1])
      requires |args[i + 1]| > 2 || (context.KnownOnly() && args[i + 1] !in context.flags.index)
      ensures events[i + 1] == ValueOf(context.flags.index[args[i]], args[i + 1])
    {
      LongFormOpens(i);
      TokenIsAccountedFor(i + 1);
      DashWordFits(context.flags.index, allowUnknown, args[i + 1], events[i + 1]);
      RunAccountsForTokens(setting, events, context.AllFlags(), i + 1);
    }

    /** Each token read so far is exactly one event: an argument, a value of the flag that was open, or an occurrence. */
    lemma TokenIsAccountedFor(i: nat)
      requires Valid() && i < current
      ensures current <= |args| && MayHappen(setting, events[..i], events[i])
      ensures Fits(context.flags.index, allowUnknown, OriginAfter(args, events[..i]), args[i], events[i])
    {
      RunAccountsForTokens(setting, events, context.AllFlags(), i);
    }
  }
}
