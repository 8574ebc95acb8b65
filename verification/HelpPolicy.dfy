/**
 Selecting the objects that default Help shows under a budget of logical lines.
 */
module HelpPolicy {
  import opened Text

  const DEFAULT_HELP_LOGICAL_LINE_BUDGET := 100
  const TRUNCATE_NON_AI_MODE_TEXT_HELP := false
  const TRUNCATE_NON_AI_MODE_JSON_HELP := false

  datatype Mode = Mode(aiMode: bool, json: bool, all: bool)

  datatype BudgetObject<T> = BudgetObject(value: T, logicalLines: int, required: bool)

  datatype Options = Options(
    mode: Mode, budget: int, reservedLines: int, requiredSafety: bool, showAllCommand: string, searchCommand: string)

  datatype Next = Next(showAll: string, search: string)

  datatype Projection<T> = Projection(items: seq<T>, shown: nat, total: nat, truncated: bool, next: Option<Next>)

  predicate ShouldTruncateDefaultHelp(mode: Mode) {
    !mode.all && (mode.aiMode || if mode.json then TRUNCATE_NON_AI_MODE_JSON_HELP else TRUNCATE_NON_AI_MODE_TEXT_HELP)
  }

  /** Compact Help is for AI mode, and never when everything was asked for. */
  lemma OnlyAIModeTruncates(mode: Mode)
    ensures ShouldTruncateDefaultHelp(mode) <==> mode.aiMode && !mode.all
  {
  }

  function NormalizedHelpLogicalLines(lines: int): (n: int)
    ensures n >= 1 && n >= lines && (n == 1 || n == lines)
  {
    if lines <= 0 then 1 else lines
  }

  // ----- What is selected -----

  function Values<T>(objects: seq<BudgetObject<T>>): seq<T> {
    seq(|objects|, i requires 0 <= i < |objects| => objects[i].value)
  }

  function Lines<T>(objects: seq<BudgetObject<T>>): nat {
    if objects == [] then 0
    else Lines(objects[..|objects| - 1]) + NormalizedHelpLogicalLines(objects[|objects| - 1].logicalLines)
  }

  function WithRequired<T>(objects: seq<BudgetObject<T>>, required: bool): seq<BudgetObject<T>> {
    if objects == [] then []
    else
      WithRequired(objects[..|objects| - 1], required)
        + if objects[|objects| - 1].required == required then [objects[|objects| - 1]] else []
  }

  /** The first k objects fit beside what is used, and no longer prefix does. */
  ghost predicate IsLongestFit<T>(objects: seq<BudgetObject<T>>, used: nat, room: nat, k: int) {
    && 0 <= k <= |objects|
    && used + Lines(objects[..k]) <= room
    && forall n :: k < n <= |objects| ==> used + Lines(objects[..n]) > room
  }

  /** What the reserved lines leave of the budget, which is 100 unless another one is given. */
  function Room(options: Options): (room: nat)
    ensures room > 0 ==> room + options.reservedLines == if options.budget > 0 then options.budget else 100
    ensures room == 0 ==> options.reservedLines >= if options.budget > 0 then options.budget else 100
  {
    var budget := if options.budget <= 0 then DEFAULT_HELP_LOGICAL_LINE_BUDGET else options.budget;
    if budget - options.reservedLines < 0 then 0 else budget - options.reservedLines
  }

  /** What compact Help shows: with RequiredSafety all required objects, over budget or not, and then as many of the
      optional ones as still fit; otherwise as many objects as fit. */
  ghost predicate IsSelection<T>(items: seq<T>, objects: seq<BudgetObject<T>>, options: Options) {
    var room := Room(options);
    if options.requiredSafety then
      var required, optional := WithRequired(objects, true), WithRequired(objects, false);
      if Lines(required) > room then items == Values(required)
      else exists k :: IsLongestFit(optional, Lines(required), room, k) && items == Values(required) + Values(optional[..k])
    else exists k :: IsLongestFit(objects, 0, room, k) && items == Values(objects[..k])
  }

  method ProjectDefaultHelpObjects<T>(objects: seq<BudgetObject<T>>, options: Options) returns (r: Projection<T>)
    ensures !ShouldTruncateDefaultHelp(options.mode) ==> r == Projection(Values(objects), |objects|, |objects|, false, None)
    ensures ShouldTruncateDefaultHelp(options.mode) ==>
      && IsSelection(r.items, objects, options)
      && r.shown == |r.items| && r.total == |objects|
      && (r.truncated <==> r.shown < r.total)
      && r.next == if r.truncated && (options.showAllCommand != "" || options.searchCommand != "")
                   then Some(Next(options.showAllCommand, options.searchCommand)) else None
  {
    var total := |objects|;
    if !ShouldTruncateDefaultHelp(options.mode) {
      return Projection(Values(objects), total, total, false, None);
    }
    var budget := options.budget;
    if budget <= 0 {
      budget := DEFAULT_HELP_LOGICAL_LINE_BUDGET;
    }
    var remaining := budget - options.reservedLines;
    if remaining < 0 {
      remaining := 0;
    }
    var selected: seq<T> := [];
    var consumed := 0;
    ghost var required := if options.requiredSafety then WithRequired(objects, true) else [];
    if options.requiredSafety {
      selected, consumed := TakeRequired(objects);
    }
    if !options.requiredSafety || consumed <= remaining {
      selected := AddFitting(objects, options.requiredSafety, required, selected, consumed, remaining);
    }
    var truncated := |selected| < total;
    var next := None;
    if truncated && (options.showAllCommand != "" || options.searchCommand != "") {
      next := Some(Next(options.showAllCommand, options.searchCommand));
    }
    r := Projection(selected, |selected|, total, truncated, next);
  }

  /** The required objects, whether or not they fit. */
  method TakeRequired<T>(objects: seq<BudgetObject<T>>) returns (selected: seq<T>, consumed: nat)
    ensures selected == Values(WithRequired(objects, true)) && consumed == Lines(WithRequired(objects, true))
  {
    selected, consumed := [], 0;
    ghost var taken: seq<BudgetObject<T>> := [];
    for i := 0 to |objects|
      invariant taken == WithRequired(objects[..i], true)
      invariant selected == Values(taken) && consumed == Lines(taken)
    {
      assert objects[..i + 1] == objects[..i] + [objects[i]];
      WithRequiredAppended(objects[..i], objects[i], true);
      if objects[i].required {
        AppendedValues(taken, objects[i]);
        taken := taken + [objects[i]];
        selected := selected + [objects[i].value];
        consumed := consumed + NormalizedHelpLogicalLines(objects[i].logicalLines);
      }
    }
    assert objects[..|objects|] == objects;
  }

  /** The objects considered in the second pass. */
  ghost function Candidates<T>(objects: seq<BudgetObject<T>>, requiredSafety: bool): seq<BudgetObject<T>> {
    if requiredSafety then WithRequired(objects, false) else objects
  }

  method AddFitting<T>(
    objects: seq<BudgetObject<T>>, requiredSafety: bool, ghost required: seq<BudgetObject<T>>,
    before: seq<T>, used: nat, room: nat)
    returns (selected: seq<T>)
    requires before == Values(required) && used == Lines(required) && used <= room
    ensures exists k ::
      IsLongestFit(Candidates(objects, requiredSafety), used, room, k)
      && selected == before + Values(Candidates(objects, requiredSafety)[..k])
  {
    var consumed := used;
    ghost var all, taken := Candidates(objects, requiredSafety), Candidates(objects[..0], requiredSafety);
    selected := before;
    assert Values(taken) == [] && before + [] == before;
    for i := 0 to |objects|
      invariant taken == Candidates(objects[..i], requiredSafety) && taken <= all
      invariant selected == before + Values(taken)
      invariant consumed == used + Lines(taken) <= room
    {
      CandidatesAppended(objects, requiredSafety, i);
      if requiredSafety && objects[i].required {
        continue;
      }
      AppendedValues(taken, objects[i]);
      var lines := NormalizedHelpLogicalLines(objects[i].logicalLines);
      if consumed + lines > room {
        assert all[..|taken|] == taken && all[..|taken| + 1] == taken + [objects[i]];
        NoLongerFit(all, |taken|, used, room);
        return;
      }
      taken := taken + [objects[i]];
      selected := selected + [objects[i].value];
      consumed := consumed + lines;
    }
    assert objects[..|objects|] == objects && all[..|all|] == all;
    assert IsLongestFit(all, used, room, |all|);
  }

  lemma CandidatesAppended<T>(objects: seq<BudgetObject<T>>, requiredSafety: bool, i: nat)
    requires i < |objects|
    ensures Candidates(objects[..i + 1], requiredSafety) ==
      Candidates(objects[..i], requiredSafety) + if requiredSafety && objects[i].required then [] else [objects[i]]
    ensures Candidates(objects[..i + 1], requiredSafety) <= Candidates(objects, requiredSafety)
  {
    assert objects[..i + 1] == objects[..i] + [objects[i]];
    WithRequiredAppended(objects[..i], objects[i], false);
    WithRequiredGrows(objects, false, i + 1);
  }

  lemma AppendedValues<T>(objects: seq<BudgetObject<T>>, o: BudgetObject<T>)
    ensures Values(objects + [o]) == Values(objects) + [o.value]
    ensures Lines(objects + [o]) == Lines(objects) + NormalizedHelpLogicalLines(o.logicalLines)
  {
    assert (objects + [o])[..|objects|] == objects;
  }

  lemma WithRequiredAppended<T>(objects: seq<BudgetObject<T>>, o: BudgetObject<T>, required: bool)
    ensures WithRequired(objects + [o], required) ==
      WithRequired(objects, required) + if o.required == required then [o] else []
  {
    assert (objects + [o])[..|objects|] == objects;
  }

  lemma {:induction false} WithRequiredGrows<T>(objects: seq<BudgetObject<T>>, required: bool, i: nat)
    requires i <= |objects|
    ensures WithRequired(objects[..i], required) <= WithRequired(objects, required)
    decreases |objects|
  {
    if i < |objects| {
      assert objects[..|objects| - 1][..i] == objects[..i];
      WithRequiredGrows(objects[..|objects| - 1], required, i);
    } else {
      assert objects[..i] == objects;
    }
  }

  lemma {:induction false} LinesGrow<T>(objects: seq<BudgetObject<T>>, m: nat, n: nat)
    requires m <= n <= |objects|
    ensures Lines(objects[..m]) + (n - m) <= Lines(objects[..n])
  {
    if m < n {
      LinesGrow(objects, m, n - 1);
      assert objects[..n][..n - 1] == objects[..n - 1];
    }
  }

  /** Once an object does not fit, no prefix that contains it does. */
  lemma NoLongerFit<T>(objects: seq<BudgetObject<T>>, k: nat, used: nat, room: nat)
    requires k < |objects| && used + Lines(objects[..k]) <= room
    requires used + Lines(objects[..k + 1]) > room
    ensures IsLongestFit(objects, used, room, k)
  {
    forall n | k < n <= |objects|
      ensures used + Lines(objects[..n]) > room
    {
      LinesGrow(objects, k + 1, n);
    }
  }

  lemma {:induction false} RequiredAndOptionalAddUp<T>(objects: seq<BudgetObject<T>>)
    ensures |WithRequired(objects, true)| + |WithRequired(objects, false)| == |objects|
    ensures multiset(WithRequired(objects, true)) + multiset(WithRequired(objects, false)) == multiset(objects)
  {
    if objects != [] {
      var init := objects[..|objects| - 1];
      RequiredAndOptionalAddUp(init);
      assert objects == init + [objects[|objects| - 1]];
    }
  }

  ghost predicate AreRising(places: seq<nat>) {
    forall k, n :: 0 <= k < n < |places| ==> places[k] < places[n]
  }

  /** The required objects are those at the places that hold one, in order; likewise the optional ones. */
  lemma {:induction false} RequiredKeepOrder<T>(objects: seq<BudgetObject<T>>, required: bool) returns (places: seq<nat>)
    ensures AreRising(places) && |places| == |WithRequired(objects, required)|
    ensures forall i :: 0 <= i < |objects| ==> (i in places <==> objects[i].required == required)
    ensures forall k :: 0 <= k < |places| ==> places[k] < |objects| && objects[places[k]] == WithRequired(objects, required)[k]
  {
    places := [];
    if objects != [] {
      var n := |objects| - 1;
      places := RequiredKeepOrder(objects[..n], required);
      assert forall k :: 0 <= k < |places| ==> places[k] in places && places[k] < n;
      if objects[n].required == required {
        places := places + [n];
      }
    }
  }

  /** A longest fit takes everything exactly if everything fits. */
  lemma LongestFitOfAll<T>(objects: seq<BudgetObject<T>>, used: nat, room: nat, k: int)
    requires IsLongestFit(objects, used, room, k)
    ensures |Values(objects[..k])| == k
    ensures k == |objects| <==> used + Lines(objects) <= room
  {
    assert objects[..|objects|] == objects;
  }

  /** The selection is determined by the objects and the options; it never shows more than there is, and leaves
      something out exactly if the whole does not fit and something may be left out. */
  lemma SelectionIsDetermined<T>(items: seq<T>, other: seq<T>, objects: seq<BudgetObject<T>>, options: Options)
    requires IsSelection(items, objects, options) && IsSelection(other, objects, options)
    ensures items == other && |items| <= |objects|
    ensures |items| == |objects| <==>
      Lines(objects) <= Room(options) || (options.requiredSafety && WithRequired(objects, false) == [])
  {
    var room := Room(options);
    RequiredAndOptionalAddUp(objects);
    LinesAddUp(objects);
    assert Lines(objects) == Lines(WithRequired(objects, true)) + Lines(WithRequired(objects, false));
    var required, optional := WithRequired(objects, true), WithRequired(objects, false);
    if !options.requiredSafety {
      var k :| IsLongestFit(objects, 0, room, k) && items == Values(objects[..k]);
      var n :| IsLongestFit(objects, 0, room, n) && other == Values(objects[..n]);
      assert k == n;
      LongestFitOfAll(objects, 0, room, k);
    } else if Lines(required) <= room {
      var used := Lines(required);
      var k :| IsLongestFit(optional, used, room, k) && items == Values(required) + Values(optional[..k]);
      var n :| IsLongestFit(optional, used, room, n) && other == Values(required) + Values(optional[..n]);
      assert k == n;
      LongestFitOfAll(optional, used, room, k);
      assert optional == [] ==> k == 0;
    } else {
      LinesOfSome(optional);
    }
  }

  lemma LinesOfSome<T>(objects: seq<BudgetObject<T>>)
    ensures Lines(objects) == 0 <==> objects == []
  {
  }

  ghost predicate LinesSplit<T>(objects: seq<BudgetObject<T>>) {
    Lines(WithRequired(objects, true)) + Lines(WithRequired(objects, false)) == Lines(objects)
  }

  lemma {:induction false} LinesAddUp<T>(objects: seq<BudgetObject<T>>)
    ensures LinesSplit(objects)
  {
    if objects != [] {
      var init, last := objects[..|objects| - 1], objects[|objects| - 1];
      assert objects == init + [last];
      LinesAddUp(init);
      SplitAppended(init, last);
    }
  }

  lemma SplitAppended<T>(init: seq<BudgetObject<T>>, last: BudgetObject<T>)
    requires LinesSplit(init)
    ensures LinesSplit(init + [last])
  {
    WithRequiredAppended(init, last, true);
    WithRequiredAppended(init, last, false);
    AppendedValues(WithRequired(init, last.required), last);
    AppendedValues(init, last);
    var others := WithRequired(init, !last.required);
    assert others + [] == others;
  }
}
