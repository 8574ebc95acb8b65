/**
 Splitting a process command into arguments, with the quoting rules of section 2.2 of the POSIX Shell
 Command Language on Unix and a reduced set of rules on Windows. The splitter is an automaton over
 characters; what it accepts and what it returns is stated by a grammar of spelled items.
 */
module CommandSplit {
  import opened Text

  datatype Error = EmptyCommand | TrailingBackslash | UnclosedQuote

  datatype Result<+T> = Ok(value: T) | Err(error: Error)

  /** The white space of Go's unicode.IsSpace. */
  predicate IsSpace(c: char) {
    || c in {'\t', '\n', '\U{000B}', '\U{000C}', '\r', ' ', '\U{0085}', '\U{00A0}', '\U{1680}'}
    || '\U{2000}' <= c <= '\U{200A}'
    || c in {'\U{2028}', '\U{2029}', '\U{202F}', '\U{205F}', '\U{3000}'}
  }

  function TrimLeft(s: string): string {
    if s != [] && IsSpace(s[0]) then TrimLeft(s[1..]) else s
  }

  function TrimRight(s: string): string {
    if s != [] && IsSpace(s[|s| - 1]) then TrimRight(s[..|s| - 1]) else s
  }

  function TrimSpace(s: string): string {
    TrimRight(TrimLeft(s))
  }

  ghost predicate AreSpaces(s: string) {
    forall i :: 0 <= i < |s| ==> IsSpace(s[i])
  }

  lemma {:induction false} TrimLeftCuts(s: string) returns (n: nat)
    ensures n <= |s| && AreSpaces(s[..n]) && TrimLeft(s) == s[n..]
    ensures n < |s| ==> !IsSpace(s[n])
  {
    n := 0;
    if s != [] && IsSpace(s[0]) {
      var k := TrimLeftCuts(s[1..]);
      n := k + 1;
      forall i | 0 <= i < n
        ensures IsSpace(s[..n][i])
      {
        assert i > 0 ==> IsSpace(s[1..][..k][i - 1]);
      }
    }
  }

  lemma {:induction false} TrimRightCuts(s: string) returns (n: nat)
    ensures n <= |s| && AreSpaces(s[n..]) && TrimRight(s) == s[..n]
    ensures n > 0 ==> !IsSpace(s[n - 1])
  {
    n := |s|;
    if s != [] && IsSpace(s[|s| - 1]) {
      n := TrimRightCuts(s[..|s| - 1]);
      forall i | 0 <= i < |s| - n
        ensures IsSpace(s[n..][i])
      {
        assert i < |s| - n - 1 ==> IsSpace(s[..|s| - 1][n..][i]);
      }
    } else {
      assert s[..n] == s;
    }
  }

  /** What is trimmed off is white space, and what is left neither begins nor ends with any. */
  lemma TrimSpaceCuts(s: string) returns (from: nat, to: nat)
    ensures from <= to <= |s| && TrimSpace(s) == s[from..to] && AreSpaces(s[..from]) && AreSpaces(s[to..])
    ensures from < to ==> !IsSpace(s[from]) && !IsSpace(s[to - 1])
  {
    from := TrimLeftCuts(s);
    var left := s[from..];
    var n := TrimRightCuts(left);
    to := from + n;
    assert left[..n] == s[from..to] && left[n..] == s[to..];
    assert n > 0 ==> left[n - 1] == s[to - 1];
  }

  // ----- The automaton -----

  datatype Mode = Unquoted | InSingle | InDouble

  /** Arguments finished so far, and the one being built: None if none has started. */
  datatype State = State(args: seq<string>, pending: Option<string>, mode: Mode) {
    function Write(text: string): State {
      this.(pending := Some(pending.GetOr("") + text))
    }

    function Flush(): State {
      State(if pending.Some? then args + [pending.value] else args, None, mode)
    }
  }

  predicate IsUnixInnerEscape(c: char) {
    c in {'"', '\\', '$', '`'}
  }

  /** The state after the first one or two characters, and how many were read. */
  function Step(s: string, st: State, windows: bool): (r: Option<(State, nat)>)
    requires s != []
    ensures r.Some? ==> 0 < r.value.1 <= |s|
  {
    var c, more := s[0], |s| > 1;
    match st.mode
    case InSingle =>
      if c == '\'' then Some((st.(mode := Unquoted), 1)) else Some((st.Write([c]), 1))
    case InDouble =>
      if c == '"' then Some((st.(mode := Unquoted), 1))
      else if c == '\\' && more && windows && s[1] == '"' then Some((st.Write([s[1]]), 2))
      else if c == '\\' && more && !windows && s[1] == '\n' then Some((st, 2))
      else if c == '\\' && more && !windows && IsUnixInnerEscape(s[1]) then Some((st.Write([s[1]]), 2))
      else Some((st.Write([c]), 1))
    case Unquoted =>
      if c == '\\' && windows then Some((st.Write([c]), 1))
      else if c == '\\' && !more then None
      else if c == '\\' && s[1] == '\n' then Some((st, 2))
      else if c == '\\' then Some((st.Write([s[1]]), 2))
      else if c == '\'' then Some((st.Write("").(mode := InSingle), 1))
      else if c == '"' then Some((st.Write("").(mode := InDouble), 1))
      else if IsSpace(c) then Some((st.Flush(), 1))
      else Some((st.Write([c]), 1))
  }

  function Scan(s: string, st: State, windows: bool): (end: Result<State>)
    ensures end.Err? ==> end.error == TrailingBackslash
    decreases |s|
  {
    if s == [] then Ok(st)
    else
      var next := Step(s, st, windows);
      if next.None? then Err(TrailingBackslash) else Scan(s[next.value.1..], next.value.0, windows)
  }

  /** Reading s from st comes to the same as reading rest from next. */
  ghost predicate Leads(s: string, st: State, rest: string, next: State, windows: bool) {
    Scan(s, st, windows) == Scan(rest, next, windows)
  }

  lemma ScanOne(s: string, st: State, windows: bool)
    requires s != ""
    ensures
      var next := Step(s, st, windows);
      if next.Some? then Leads(s, st, s[next.value.1..], next.value.0, windows)
      else Scan(s, st, windows) == Err(TrailingBackslash)
  {
  }

  lemma LeadsOn(a: string, st: State, b: string, next: State, c: string, last: State, windows: bool)
    requires Leads(a, st, b, next, windows) && Leads(b, next, c, last, windows)
    ensures Leads(a, st, c, last, windows)
  {
  }

  const START := State([], None, Unquoted)

  function Finish(end: Result<State>): Result<seq<string>> {
    if end.Err? then Err(end.error)
    else if !end.value.mode.Unquoted? then Err(UnclosedQuote)
    else
      var args := end.value.Flush().args;
      if args == [] || args[0] == "" then Err(EmptyCommand) else Ok(args)
  }

  function Split(command: string, windows: bool): Result<seq<string>> {
    var trimmed := TrimSpace(command);
    if trimmed == "" then Err(EmptyCommand) else Finish(Scan(trimmed, START, windows))
  }

  method SplitProcessCommandForOS(command: string, windows: bool) returns (r: Result<seq<string>>)
    ensures r == Split(command, windows)
  {
    var runes := TrimSpace(command);
    if runes == "" {
      return Err(EmptyCommand);
    }
    var args: seq<string> := [];
    var current := "";
    var inSingle, inDouble, hasToken := false, false, false;
    var i := 0;
    while i < |runes|
      invariant 0 <= i <= |runes|
      invariant !(inSingle && inDouble)
      invariant !hasToken ==> current == "" && !inSingle && !inDouble
      invariant Leads(runes, START, runes[i..], StateOf(args, current, hasToken, inSingle, inDouble), windows)
      decreases |runes| - i
    {
      var c := runes[i];
      ghost var rest, st := runes[i..], StateOf(args, current, hasToken, inSingle, inDouble);
      ghost var next := Step(rest, st, windows);
      assert current + "" == current;
      if inSingle {
        if c == '\'' {
          inSingle := false;
        } else {
          current := current + [c];
        }
        i := i + 1;
      } else if inDouble {
        if c == '"' {
          inDouble := false;
          i := i + 1;
        } else if c == '\\' && i + 1 < |runes| && windows && runes[i + 1] == '"' {
          current := current + [runes[i + 1]];
          i := i + 2;
        } else if c == '\\' && i + 1 < |runes| && !windows && runes[i + 1] == '\n' {
          i := i + 2;
        } else if c == '\\' && i + 1 < |runes| && !windows && IsUnixInnerEscape(runes[i + 1]) {
          current := current + [runes[i + 1]];
          i := i + 2;
        } else {
          current := current + [c];
          i := i + 1;
        }
      } else if c == '\\' {
        if windows {
          hasToken := true;
          current := current + [c];
          i := i + 1;
        } else if i + 1 >= |runes| {
          ScanOne(rest, st, windows);
          return Err(TrailingBackslash);
        } else if runes[i + 1] == '\n' {
          i := i + 2;
        } else {
          hasToken := true;
          current := current + [runes[i + 1]];
          i := i + 2;
        }
      } else if c == '\'' {
        inSingle, hasToken := true, true;
        i := i + 1;
      } else if c == '"' {
        inDouble, hasToken := true, true;
        i := i + 1;
      } else if IsSpace(c) {
        if hasToken {
          args, current, hasToken := args + [current], "", false;
        }
        i := i + 1;
      } else {
        hasToken := true;
        current := current + [c];
        i := i + 1;
      }
      assert next == Some((StateOf(args, current, hasToken, inSingle, inDouble), |rest| - |runes[i..]|));
      assert rest[next.value.1..] == runes[i..];
      ScanOne(rest, st, windows);
      LeadsOn(runes, START, rest, st, runes[i..], next.value.0, windows);
    }
    assert runes[i..] == [];
    if inSingle || inDouble {
      return Err(UnclosedQuote);
    }
    if hasToken {
      args := args + [current];
    }
    if args == [] || args[0] == "" {
      return Err(EmptyCommand);
    }
    return Ok(args);
  }

  ghost function StateOf(args: seq<string>, current: string, hasToken: bool, inSingle: bool, inDouble: bool): State {
    State(args, if hasToken then Some(current) else None, if inSingle then InSingle else if inDouble then InDouble else Unquoted)
  }

  // ----- The grammar -----

  datatype Inner = InnerPlain(c: char) | InnerEscaped(c: char) | InnerContinuation

  /** One item of a command line as it is spelled. */
  datatype Item =
    | Blank(c: char)
    | Plain(c: char)
    | Escaped(c: char)
    | Continuation
    | Single(body: string)
    | Double(inner: seq<Inner>)

  function SpellInner(inner: Inner): string {
    match inner
    case InnerPlain(c) => [c]
    case InnerEscaped(c) => ['\\', c]
    case InnerContinuation => "\\\n"
  }

  function SpellBody(body: seq<Inner>): string {
    if body == [] then "" else SpellInner(body[0]) + SpellBody(body[1..])
  }

  function BodyText(body: seq<Inner>): string {
    if body == [] then ""
    else (if body[0].InnerContinuation? then "" else [body[0].c]) + BodyText(body[1..])
  }

  /** A double quote, and on Unix a backslash, a dollar sign or a backquote too. */
  predicate IsInnerEscapable(c: char, windows: bool) {
    c == '"' || (!windows && (c == '\\' || c == '$' || c == '`'))
  }

  /** What separates arguments, by code points. */
  lemma BlankIsWhiteSpace(c: char, windows: bool)
    ensures IsItem(Blank(c), windows) <==>
      var n := c as int;
      || 0x09 <= n <= 0x0D || n == 0x20 || n == 0x85 || n == 0xA0 || n == 0x1680 || 0x2000 <= n <= 0x200A
      || n == 0x2028 || n == 0x2029 || n == 0x202F || n == 0x205F || n == 0x3000
  {
  }

  /** A backslash stands for itself only where it does not start an escape. */
  predicate MayPrecede(inner: Inner, following: char, windows: bool) {
    match inner
    case InnerPlain(c) =>
      c != '"' && (c == '\\' ==> !IsInnerEscapable(following, windows) && (windows || following != '\n'))
    case InnerEscaped(c) => IsInnerEscapable(c, windows)
    case InnerContinuation => !windows
  }

  /** A body between double quotes. */
  predicate IsBody(body: seq<Inner>, windows: bool) {
    body == [] || (
      && IsBody(body[1..], windows)
      && MayPrecede(body[0], (SpellBody(body[1..]) + "\"")[0], windows)
    )
  }

  function Spell(item: Item): string {
    match item
    case Blank(c) => [c]
    case Plain(c) => [c]
    case Escaped(c) => ['\\', c]
    case Continuation => "\\\n"
    case Single(body) => "'" + body + "'"
    case Double(inner) => "\"" + SpellBody(inner) + "\""
  }

  predicate IsItem(item: Item, windows: bool) {
    match item
    case Blank(c) => IsSpace(c)
    case Plain(c) => !IsSpace(c) && c != '\'' && c != '"' && (c == '\\' ==> windows)
    case Escaped(c) => !windows && c != '\n'
    case Continuation => !windows
    case Single(body) => '\'' !in body
    case Double(inner) => IsBody(inner, windows)
  }

  function SpellAll(items: seq<Item>): string {
    if items == [] then "" else Spell(items[0]) + SpellAll(items[1..])
  }

  predicate AreItems(items: seq<Item>, windows: bool) {
    forall i :: 0 <= i < |items| ==> IsItem(items[i], windows)
  }

  /** The text an item contributes to its argument; None for items that neither start nor extend one. */
  function ItemText(item: Item): Option<string> {
    match item
    case Blank(_) => None
    case Continuation => None
    case Plain(c) => Some([c])
    case Escaped(c) => Some([c])
    case Single(body) => Some(body)
    case Double(inner) => Some(BodyText(inner))
  }

  /** The arguments that a line of items spells: between blanks, the texts run together; text-less stretches give
      no argument, but an empty quotation does. */
  function Arguments(items: seq<Item>, pending: Option<string>): seq<string> {
    if items == [] then (if pending.Some? then [pending.value] else [])
    else if items[0].Blank? then
      (if pending.Some? then [pending.value] else []) + Arguments(items[1..], None)
    else
      var text := ItemText(items[0]);
      Arguments(items[1..], if text.Some? then Some(pending.GetOr("") + text.value) else pending)
  }

  // ----- The automaton reads what the grammar spells -----

  lemma {:induction false} ScanSingle(body: string, rest: string, st: State, windows: bool)
    requires st.mode.InSingle? && st.pending.Some? && '\'' !in body
    ensures Leads(body + "'" + rest, st, rest, State(st.args, Some(st.pending.value + body), Unquoted), windows)
  {
    var s := body + "'" + rest;
    if body == "" {
      assert s[1..] == rest;
      assert st.pending.value + body == st.pending.value;
    } else {
      assert s[1..] == body[1..] + "'" + rest;
      ScanSingle(body[1..], rest, st.Write([body[0]]), windows);
      ConcatIsAssociative(st.pending.value, [body[0]], body[1..]);
      assert body == [body[0]] + body[1..];
    }
  }

  /** Reading a whole step: what is spelled first, then the rest from the new state. */
  lemma ScanStep(first: string, rest: string, st: State, next: State, windows: bool)
    requires first != "" && Step(first + rest, st, windows) == Some((next, |first|))
    ensures Leads(first + rest, st, rest, next, windows)
  {
    assert (first + rest)[|first|..] == rest;
    ScanOne(first + rest, st, windows);
  }

  lemma StepInner(inner: Inner, tail: string, st: State, windows: bool)
    requires st.mode.InDouble? && tail != "" && MayPrecede(inner, tail[0], windows)
    ensures Step(SpellInner(inner) + tail, st, windows) ==
      Some((if inner.InnerContinuation? then st else st.Write([inner.c]), |SpellInner(inner)|))
  {
  }

  lemma {:induction false} ScanDouble(body: seq<Inner>, rest: string, st: State, windows: bool)
    requires st.mode.InDouble? && st.pending.Some? && IsBody(body, windows)
    ensures Leads(SpellBody(body) + "\"" + rest, st,
      rest, State(st.args, Some(st.pending.value + BodyText(body)), Unquoted), windows)
  {
    if body == [] {
      assert SpellBody(body) + "\"" + rest == "\"" + rest;
      assert st.pending.value + BodyText(body) == st.pending.value;
      ScanStep("\"", rest, st, st.(mode := Unquoted), windows);
    } else {
      var tail := SpellBody(body[1..]) + "\"" + rest;
      ConcatIsAssociative(SpellInner(body[0]), SpellBody(body[1..]), "\"");
      ConcatIsAssociative(SpellInner(body[0]), SpellBody(body[1..]) + "\"", rest);
      assert tail[0] == (SpellBody(body[1..]) + "\"")[0];
      var text := if body[0].InnerContinuation? then "" else [body[0].c];
      var next := if body[0].InnerContinuation? then st else st.Write(text);
      StepInner(body[0], tail, st, windows);
      ScanStep(SpellInner(body[0]), tail, st, next, windows);
      ScanDouble(body[1..], rest, next, windows);
      assert BodyText(body) == text + BodyText(body[1..]);
      assert next.pending.value == st.pending.value + text;
      ConcatIsAssociative(st.pending.value, text, BodyText(body[1..]));
    }
  }

  function AfterItem(item: Item, st: State): State {
    if item.Blank? then st.Flush()
    else if ItemText(item).Some? then st.Write(ItemText(item).value)
    else st
  }

  lemma ScanItem(item: Item, rest: string, st: State, windows: bool)
    requires st.mode.Unquoted? && IsItem(item, windows)
    ensures Leads(Spell(item) + rest, st, rest, AfterItem(item, st), windows)
  {
    match item
    case Single(body) => ScanSingleItem(body, rest, st, windows);
    case Double(inner) => ScanDoubleItem(inner, rest, st, windows);
    case _ =>
      StepBareItem(item, rest, st, windows);
      ScanStep(Spell(item), rest, st, AfterItem(item, st), windows);
  }

  lemma ScanSingleItem(body: string, rest: string, st: State, windows: bool)
    requires st.mode.Unquoted? && '\'' !in body
    ensures Leads(Spell(Single(body)) + rest, st, rest, st.Write(body), windows)
  {
    var tail, inside := body + "'" + rest, st.Write("").(mode := InSingle);
    ConcatIsAssociative("'", body, "'");
    ConcatIsAssociative("'", body + "'", rest);
    ScanStep("'", tail, st, inside, windows);
    ScanSingle(body, rest, inside, windows);
    assert st.pending.GetOr("") + "" == st.pending.GetOr("");
  }

  lemma ScanDoubleItem(inner: seq<Inner>, rest: string, st: State, windows: bool)
    requires st.mode.Unquoted? && IsBody(inner, windows)
    ensures Leads(Spell(Double(inner)) + rest, st, rest, st.Write(BodyText(inner)), windows)
  {
    var tail, inside := SpellBody(inner) + "\"" + rest, st.Write("").(mode := InDouble);
    ConcatIsAssociative("\"", SpellBody(inner), "\"");
    ConcatIsAssociative("\"", SpellBody(inner) + "\"", rest);
    ScanStep("\"", tail, st, inside, windows);
    ScanDouble(inner, rest, inside, windows);
    assert st.pending.GetOr("") + "" == st.pending.GetOr("");
  }

  lemma StepBareItem(item: Item, rest: string, st: State, windows: bool)
    requires st.mode.Unquoted? && IsItem(item, windows) && !item.Single? && !item.Double?
    ensures Step(Spell(item) + rest, st, windows) == Some((AfterItem(item, st), |Spell(item)|))
  {
  }

  ghost predicate ScanGives(s: string, st: State, args: seq<string>, windows: bool) {
    var end := Scan(s, st, windows);
    end.Ok? && end.value.mode.Unquoted? && end.value.Flush().args == args
  }

  lemma LeadsGives(s: string, st: State, rest: string, next: State, args: seq<string>, windows: bool)
    requires Leads(s, st, rest, next, windows) && ScanGives(rest, next, args, windows)
    ensures ScanGives(s, st, args, windows)
  {
  }

  lemma {:induction false} ScanItems(items: seq<Item>, st: State, windows: bool)
    requires st.mode.Unquoted? && AreItems(items, windows)
    ensures ScanGives(SpellAll(items), st, st.args + Arguments(items, st.pending), windows)
  {
    if items != [] {
      var item, rest := items[0], items[1..];
      var next := AfterItem(item, st);
      ScanItem(item, SpellAll(rest), st, windows);
      ScanItems(rest, next, windows);
      assert next.args + Arguments(rest, next.pending) == st.args + Arguments(items, st.pending);
      LeadsGives(SpellAll(items), st, SpellAll(rest), next, st.args + Arguments(items, st.pending), windows);
    }
  }

  // ----- Text that is cut off -----

  /** What may stand last where a closing quote is missing. */
  predicate MayEnd(inner: Inner, windows: bool) {
    match inner
    case InnerPlain(c) => c != '"'
    case InnerEscaped(c) => IsInnerEscapable(c, windows)
    case InnerContinuation => !windows
  }

  /** A body behind a double quote that is never closed. */
  predicate IsOpenBody(body: seq<Inner>, windows: bool) {
    body == [] || (
      && IsOpenBody(body[1..], windows)
      && var following := SpellBody(body[1..]);
         if following == "" then MayEnd(body[0], windows) else MayPrecede(body[0], following[0], windows)
    )
  }

  ghost predicate IsOpenQuote(rest: string, windows: bool) {
    || (rest != "" && rest[0] == '\'' && '\'' !in rest[1..])
    || (rest != "" && rest[0] == '"' && exists body :: IsOpenBody(body, windows) && rest[1..] == SpellBody(body))
  }

  lemma {:induction false} StaysInSingle(body: string, st: State, windows: bool)
    requires st.mode.InSingle? && '\'' !in body
    ensures Scan(body, st, windows).Ok? && Scan(body, st, windows).value.mode.InSingle?
  {
    if body != "" {
      StaysInSingle(body[1..], st.Write([body[0]]), windows);
    }
  }

  lemma StepLastInner(inner: Inner, st: State, windows: bool)
    requires st.mode.InDouble? && MayEnd(inner, windows)
    ensures Step(SpellInner(inner), st, windows) ==
      Some((if inner.InnerContinuation? then st else st.Write([inner.c]), |SpellInner(inner)|))
  {
  }

  lemma {:induction false} StaysInDouble(body: seq<Inner>, st: State, windows: bool)
    requires st.mode.InDouble? && IsOpenBody(body, windows)
    ensures Scan(SpellBody(body), st, windows).Ok? && Scan(SpellBody(body), st, windows).value.mode.InDouble?
  {
    if body != [] {
      var first, tail := SpellInner(body[0]), SpellBody(body[1..]);
      var next := if body[0].InnerContinuation? then st else st.Write([body[0].c]);
      if tail == "" {
        StepLastInner(body[0], st, windows);
        assert first + tail == first;
      } else {
        StepInner(body[0], tail, st, windows);
      }
      ScanStep(first, tail, st, next, windows);
      StaysInDouble(body[1..], next, windows);
    }
  }

  /** What is left over where no further item can be read. */
  ghost predicate IsEnd(rest: string, windows: bool) {
    rest == "" || (!windows && rest == "\\") || IsOpenQuote(rest, windows)
  }

  /** Each such end has its own outcome. */
  lemma ScanEnd(rest: string, st: State, windows: bool)
    requires st.mode.Unquoted?
    ensures rest == "" ==> Scan(rest, st, windows) == Ok(st)
    ensures !windows && rest == "\\" ==> Scan(rest, st, windows) == Err(TrailingBackslash)
    ensures IsOpenQuote(rest, windows) ==> Scan(rest, st, windows).Ok? && !Scan(rest, st, windows).value.mode.Unquoted?
  {
    if IsOpenQuote(rest, windows) {
      ScanOne(rest, st, windows);
      if rest[0] == '\'' {
        StaysInSingle(rest[1..], st.Write("").(mode := InSingle), windows);
      } else {
        var body :| IsOpenBody(body, windows) && rest[1..] == SpellBody(body);
        StaysInDouble(body, st.Write("").(mode := InDouble), windows);
      }
    }
  }

  lemma {:induction false} ItemsLead(items: seq<Item>, rest: string, st: State, windows: bool) returns (next: State)
    requires st.mode.Unquoted? && AreItems(items, windows)
    ensures next.mode.Unquoted? && Leads(SpellAll(items) + rest, st, rest, next, windows)
  {
    if items == [] {
      next := st;
      assert SpellAll(items) + rest == rest;
    } else {
      var tail := SpellAll(items[1..]) + rest;
      ScanItem(items[0], tail, st, windows);
      next := ItemsLead(items[1..], rest, AfterItem(items[0], st), windows);
      ConcatIsAssociative(Spell(items[0]), SpellAll(items[1..]), rest);
    }
  }

  // ----- The grammar spells what the automaton reads -----

  lemma {:induction false} ReadSingle(s: string) returns (body: string, rest: string, closed: bool)
    ensures '\'' !in body && s == if closed then body + "'" + rest else body
  {
    if s == "" {
      body, rest, closed := "", "", false;
    } else if s[0] == '\'' {
      body, rest, closed := "", s[1..], true;
    } else {
      body, rest, closed := ReadSingle(s[1..]);
      body := [s[0]] + body;
      assert s == [s[0]] + s[1..];
    }
  }

  const IN_DOUBLE := State([], Some(""), InDouble)

  lemma ReadInner(s: string, windows: bool) returns (inner: Inner, n: nat)
    requires s != "" && s[0] != '"'
    ensures 0 < n <= |s| && SpellInner(inner) == s[..n]
    ensures if n < |s| then MayPrecede(inner, s[n], windows) else MayEnd(inner, windows)
  {
    n := Step(s, IN_DOUBLE, windows).value.1;
    inner := if n == 1 then InnerPlain(s[0]) else if s[1] == '\n' then InnerContinuation else InnerEscaped(s[1]);
  }

  lemma {:induction false} ReadDouble(s: string, windows: bool) returns (body: seq<Inner>, rest: string, closed: bool)
    ensures closed ==> s == SpellBody(body) + "\"" + rest && IsBody(body, windows)
    ensures !closed ==> s == SpellBody(body) && IsOpenBody(body, windows)
    decreases |s|
  {
    if s == "" {
      body, rest, closed := [], "", false;
    } else if s[0] == '"' {
      body, rest, closed := [], s[1..], true;
    } else {
      var first, n := ReadInner(s, windows);
      var tail: seq<Inner>;
      tail, rest, closed := ReadDouble(s[n..], windows);
      body := [first] + tail;
      assert body[1..] == tail && s == s[..n] + s[n..];
      if closed {
        assert (SpellBody(tail) + "\"")[0] == s[n];
        ConcatIsAssociative(SpellInner(first), SpellBody(tail), "\"");
        ConcatIsAssociative(SpellInner(first), SpellBody(tail) + "\"", rest);
      }
    }
  }

  lemma ReadSingleItem(s: string, windows: bool) returns (items: seq<Item>, rest: string)
    requires s != "" && s[0] == '\''
    ensures items == [] ==> rest == s && IsOpenQuote(rest, windows)
    ensures items != [] ==> |items| == 1 && s == Spell(items[0]) + rest && |rest| < |s| && IsItem(items[0], windows)
  {
    var body, tail, closed := ReadSingle(s[1..]);
    assert s == "'" + s[1..];
    if closed {
      items, rest := [Single(body)], tail;
      ConcatIsAssociative("'", body + "'", tail);
      ConcatIsAssociative("'", body, "'");
    } else {
      items, rest := [], s;
    }
  }

  lemma ReadDoubleItem(s: string, windows: bool) returns (items: seq<Item>, rest: string)
    requires s != "" && s[0] == '"'
    ensures items == [] ==> rest == s && IsOpenQuote(rest, windows)
    ensures items != [] ==> |items| == 1 && s == Spell(items[0]) + rest && |rest| < |s| && IsItem(items[0], windows)
  {
    var body, tail, closed := ReadDouble(s[1..], windows);
    assert s == "\"" + s[1..];
    if closed {
      items, rest := [Double(body)], tail;
      ConcatIsAssociative("\"", SpellBody(body) + "\"", tail);
      ConcatIsAssociative("\"", SpellBody(body), "\"");
    } else {
      items, rest := [], s;
    }
  }

  lemma ReadBareItem(s: string, windows: bool) returns (items: seq<Item>, rest: string)
    requires s != "" && s[0] != '\'' && s[0] != '"'
    ensures items == [] ==> rest == s == "\\" && !windows
    ensures items != [] ==> |items| == 1 && s == Spell(items[0]) + rest && |rest| < |s| && IsItem(items[0], windows)
  {
    var step := Step(s, START, windows);
    if step.None? {
      items, rest := [], s;
    } else {
      var n := step.value.1;
      rest := s[n..];
      var item := if n == 2 then (if s[1] == '\n' then Continuation else Escaped(s[1]))
                  else if IsSpace(s[0]) then Blank(s[0]) else Plain(s[0]);
      assert Spell(item) == s[..n];
      items := [item];
    }
  }

  /** Any text is the spelling of items and an end. */
  lemma {:induction false} ReadItems(s: string, windows: bool) returns (items: seq<Item>, rest: string)
    ensures s == SpellAll(items) + rest && AreItems(items, windows) && IsEnd(rest, windows)
    decreases |s|
  {
    if s == "" {
      items, rest := [], "";
    } else {
      var tail;
      if s[0] == '\'' {
        items, tail := ReadSingleItem(s, windows);
      } else if s[0] == '"' {
        items, tail := ReadDoubleItem(s, windows);
      } else {
        items, tail := ReadBareItem(s, windows);
      }
      rest := tail;
      if items != [] {
        var first := items[0];
        var more;
        more, rest := ReadItems(tail, windows);
        items := [first] + more;
        assert items[1..] == more;
        ConcatIsAssociative(Spell(first), SpellAll(more), rest);
      }
    }
  }

  /** The trimmed command is spelled by the items and ends with the rest. */
  ghost predicate IsSpelling(items: seq<Item>, rest: string, command: string, windows: bool) {
    AreItems(items, windows) && SpellAll(items) + rest == TrimSpace(command)
  }

  predicate IsNoCommand(args: seq<string>) {
    args == [] || args[0] == ""
  }

  lemma CommandIsSpelled(command: string, windows: bool) returns (items: seq<Item>, rest: string)
    ensures IsSpelling(items, rest, command, windows) && IsEnd(rest, windows)
  {
    items, rest := ReadItems(TrimSpace(command), windows);
  }

  /** What the splitter makes of a command is decided by how its spelling ends. */
  lemma SpellingDecides(items: seq<Item>, rest: string, command: string, windows: bool)
    requires IsSpelling(items, rest, command, windows)
    ensures rest == "" ==>
      var args := Arguments(items, None);
      Split(command, windows) == if IsNoCommand(args) then Err(EmptyCommand) else Ok(args)
    ensures !windows && rest == "\\" ==> Split(command, windows) == Err(TrailingBackslash)
    ensures IsOpenQuote(rest, windows) ==> Split(command, windows) == Err(UnclosedQuote)
  {
    var next := ItemsLead(items, rest, START, windows);
    ScanEnd(rest, next, windows);
    if rest == "" {
      assert SpellAll(items) + "" == SpellAll(items);
      ScanItems(items, START, windows);
      assert [] + Arguments(items, None) == Arguments(items, None);
    }
  }

  /** The splitter returns exactly the argument lists that the grammar gives the trimmed command, and these are
      the ones with a first argument that is not empty. */
  lemma SplitFollowsGrammar(command: string, windows: bool, args: seq<string>)
    ensures Split(command, windows) == Ok(args) <==>
      !IsNoCommand(args) && exists items :: IsSpelling(items, "", command, windows) && Arguments(items, None) == args
  {
    var items, rest := CommandIsSpelled(command, windows);
    SpellingDecides(items, rest, command, windows);
    if other :| IsSpelling(other, "", command, windows) && Arguments(other, None) == args {
      SpellingDecides(other, "", command, windows);
    }
  }

  /** The command counts as empty exactly if it spells no argument or an empty first one; a backslash is left over
      exactly if, on Unix, the spelling ends in one; and a quote is left open exactly if the spelling ends in one
      that is not closed. */
  lemma SplitErrorsFollowGrammar(command: string, windows: bool)
    ensures Split(command, windows) == Err(EmptyCommand) <==>
      exists items :: IsSpelling(items, "", command, windows) && IsNoCommand(Arguments(items, None))
    ensures Split(command, windows) == Err(TrailingBackslash) <==>
      !windows && exists items :: IsSpelling(items, "\\", command, windows)
    ensures Split(command, windows) == Err(UnclosedQuote) <==>
      exists items, rest :: IsSpelling(items, rest, command, windows) && IsOpenQuote(rest, windows)
  {
    var items, rest := CommandIsSpelled(command, windows);
    SpellingDecides(items, rest, command, windows);
    if other :| IsSpelling(other, "", command, windows) && IsNoCommand(Arguments(other, None)) {
      SpellingDecides(other, "", command, windows);
    }
    if !windows {
      if other :| IsSpelling(other, "\\", command, windows) {
        SpellingDecides(other, "\\", command, windows);
      }
    }
    if other, end :| IsSpelling(other, end, command, windows) && IsOpenQuote(end, windows) {
      SpellingDecides(other, end, command, windows);
    }
  }

  // ----- Quoting -----

  const QUOTED_APOSTROPHE := "'\"'\"'"

  /** An argument in single quotes, each apostrophe in it as '"'"'. */
  function Quote(arg: string): string {
    "'" + ReplaceAll(arg, "'", QUOTED_APOSTROPHE) + "'"
  }

  function JoinQuoted(args: seq<string>): string
    requires args != []
  {
    if |args| == 1 then Quote(args[0]) else Quote(args[0]) + " " + JoinQuoted(args[1..])
  }

  lemma {:induction false} ScanQuoted(arg: string, rest: string, st: State, windows: bool)
    requires st.mode.InSingle? && st.pending.Some?
    ensures Leads(ReplaceAll(arg, "'", QUOTED_APOSTROPHE) + "'" + rest, st,
      rest, State(st.args, Some(st.pending.value + arg), Unquoted), windows)
  {
    if arg == "" {
      ScanSingle("", rest, st, windows);
    } else {
      var c, tail := arg[0], arg[1..];
      var quoted := ReplaceAll(tail, "'", QUOTED_APOSTROPHE) + "'" + rest;
      var s := ReplaceAll(arg, "'", QUOTED_APOSTROPHE) + "'" + rest;
      if c == '\'' {
        ScanApostrophe(quoted, st, windows);
        assert s == QUOTED_APOSTROPHE + quoted;
      } else {
        assert s == [c] + quoted && s[1..] == quoted;
      }
      ScanQuoted(tail, rest, st.Write([c]), windows);
      ConcatIsAssociative(st.pending.value, [c], tail);
      assert arg == [c] + tail;
    }
  }

  lemma ApostropheIsBody(windows: bool)
    ensures IsBody([InnerPlain('\'')], windows)
  {
    var body := [InnerPlain('\'')];
    assert body[1..] == [] && IsBody(body[1..], windows);
    assert MayPrecede(body[0], (SpellBody(body[1..]) + "\"")[0], windows);
  }

  /** Out of the single quotes, through a double-quoted apostrophe, and back in. */
  lemma ScanApostrophe(rest: string, st: State, windows: bool)
    requires st.mode.InSingle? && st.pending.Some?
    ensures Leads(QUOTED_APOSTROPHE + rest, st, rest, st.Write("'"), windows)
  {
    var s := QUOTED_APOSTROPHE + rest;
    var text := st.pending.value;
    assert s[1..] == "\"'\"" + ("'" + rest);
    var out := State(st.args, st.pending, Unquoted);
    ScanItem(Double([InnerPlain('\'')]), "'" + rest, out, windows) by {
      ApostropheIsBody(windows);
      assert SpellBody([InnerPlain('\'')]) == "'" && BodyText([InnerPlain('\'')]) == "'";
    }
    assert Spell(Double([InnerPlain('\'')])) == "\"'\"" && BodyText([InnerPlain('\'')]) == "'";
    assert ("'" + rest)[1..] == rest;
    assert text + "'" + "" == text + "'";
  }

  lemma {:induction false} ScanJoined(args: seq<string>, st: State, windows: bool)
    requires args != [] && st.mode.Unquoted? && st.pending.None?
    ensures ScanGives(JoinQuoted(args), st, st.args + args, windows)
  {
    var arg, all := args[0], st.args + args;
    var after := State(st.args, Some(arg), Unquoted);
    if |args| == 1 {
      ScanQuote(arg, "", st, windows);
      assert Quote(arg) + "" == JoinQuoted(args);
      assert ScanGives("", after, all, windows);
      LeadsGives(JoinQuoted(args), st, "", after, all, windows);
    } else {
      var tail := JoinQuoted(args[1..]);
      ScanJoined(args[1..], after.Flush(), windows);
      assert st.args + [arg] + args[1..] == all;
      ScanItem(Blank(' '), tail, after, windows);
      LeadsGives(" " + tail, after, tail, after.Flush(), all, windows);
      ScanQuote(arg, " " + tail, st, windows);
      ConcatIsAssociative(Quote(arg), " ", tail);
      LeadsGives(JoinQuoted(args), st, " " + tail, after, all, windows);
    }
  }

  lemma ScanQuote(arg: string, rest: string, st: State, windows: bool)
    requires st.mode.Unquoted? && st.pending.None?
    ensures Leads(Quote(arg) + rest, st, rest, State(st.args, Some(arg), Unquoted), windows)
  {
    var body := ReplaceAll(arg, "'", QUOTED_APOSTROPHE) + "'" + rest;
    ConcatIsAssociative("'", ReplaceAll(arg, "'", QUOTED_APOSTROPHE), "'");
    ConcatIsAssociative("'", ReplaceAll(arg, "'", QUOTED_APOSTROPHE) + "'", rest);
    var inside := State(st.args, Some(""), InSingle);
    assert "" + "" == "";
    ScanStep("'", body, st, inside, windows);
    ScanQuoted(arg, rest, inside, windows);
    assert "" + arg == arg;
  }

  lemma {:induction false} JoinedIsTrimmed(args: seq<string>)
    requires args != []
    ensures JoinQuoted(args) != "" && TrimSpace(JoinQuoted(args)) == JoinQuoted(args)
    ensures JoinQuoted(args)[|JoinQuoted(args)| - 1] == '\''
  {
    if |args| > 1 {
      JoinedIsTrimmed(args[1..]);
    }
  }

  /** Round trip: splitting the quoted and joined arguments gives the arguments back, whatever they contain. */
  lemma SplitUndoesQuoting(args: seq<string>, windows: bool)
    requires args != [] && args[0] != ""
    ensures Split(JoinQuoted(args), windows) == Ok(args)
  {
    JoinedIsTrimmed(args);
    ScanJoined(args, START, windows);
    assert [] + args == args;
  }
}
