/**
  What the parser of `Argparsor` computes, as functions of the registry's
  state: the lookahead that ends a variadic list, the arity switch
  `_parseArgument`, the short-cluster and long-option routines, positional
  handling, the cursor walk of `parseArguments`, the required check and the
  validator pass. The methods of the `Argparsor` class are proved to compute
  exactly these.
 */
module Engine {
  import opened Exceptions
  import opened Tokens
  import opened Validators
  import opened Arguments

  /** The registry as the parser sees it: the declarations, each at the
      position that stands for its handle (an `Argument**` stays with its
      declaration when the list is sorted); `order`, the list `_arguments`
      as the sequence of those handles, in the order `compareOption` left
      it; the map from every name or flag to a handle, the mode flags and
      the tokens no positional took. */
  datatype State = State(
    args: seq<Argument>,
    order: seq<nat>,
    names: map<string, nat>,
    alternative: bool,
    strict: bool,
    additional: seq<string>)

  /** Every entry of `order` is a handle below `n`. */
  predicate HandlesBelow(order: seq<nat>, n: nat) {
    forall j :: 0 <= j < |order| ==> order[j] < n
  }

  /** No handle occurs twice. */
  predicate Distinct(order: seq<nat>) {
    forall i, j :: 0 <= i < j < |order| ==> order[i] != order[j]
  }

  /** Every mapped handle and every listed handle exists, and every
      declaration is well formed. */
  predicate Indexed(s: State) {
    && (forall n :: n in s.names ==> s.names[n] < |s.args|)
    && HandlesBelow(s.order, |s.args|)
    && (forall k :: 0 <= k < |s.args| ==> WellFormed(s.args[k]))
  }

  /** The handles below `n`, each once. */
  function Handles(n: nat): multiset<nat> {
    if n == 0 then multiset{} else Handles(n - 1) + multiset{n - 1}
  }

  /** The list holds every declaration exactly once. */
  predicate ListOrder(s: State) {
    |s.order| == |s.args| && multiset(s.order) == Handles(|s.order|)
  }

  /** Each handle below `n` occurs once in Handles(n), and no other does. */
  lemma {:induction false} HandlesOnce(n: nat, x: nat)
    ensures Handles(n)[x] == if x < n then 1 else 0
  {
    if n > 0 {
      HandlesOnce(n - 1, x);
    }
  }

  /** A sequence holds no value twice exactly when every value occurs at
      most once in its multiset. */
  lemma {:induction false} DistinctOnce(o: seq<nat>)
    ensures Distinct(o) <==> forall x :: multiset(o)[x] <= 1
    decreases |o|
  {
    if |o| > 0 {
      var rest := o[1..];
      DistinctOnce(rest);
      assert o == [o[0]] + rest;
      assert multiset(o) == multiset{o[0]} + multiset(rest);
      if Distinct(o) {
        forall i, j | 0 <= i < j < |rest|
          ensures rest[i] != rest[j]
        {
          assert rest[i] == o[i + 1] && rest[j] == o[j + 1];
        }
        assert o[0] !in rest by {
          forall j | 0 <= j < |rest|
            ensures rest[j] != o[0]
          {
            assert rest[j] == o[j + 1];
          }
        }
      }
      if forall x :: multiset(o)[x] <= 1 {
        assert multiset(rest)[o[0]] == 0;
        assert forall x :: multiset(rest)[x] <= multiset(o)[x];
        forall i, j | 0 <= i < j < |o|
          ensures o[i] != o[j]
        {
          if i == 0 {
            assert o[j] == rest[j - 1];
          } else {
            assert o[i] == rest[i - 1] && o[j] == rest[j - 1];
          }
        }
      }
    }
  }

  /** A list that holds every declaration once names each handle below
      `|args|` exactly once. */
  lemma ListOrderPermutes(s: State)
    requires ListOrder(s)
    ensures HandlesBelow(s.order, |s.args|) && Distinct(s.order) && |s.order| == |s.args|
    ensures forall d :: 0 <= d < |s.args| ==> d in s.order
  {
    var n := |s.args|;
    forall x: nat
      ensures multiset(s.order)[x] == if x < n then 1 else 0
    {
      HandlesOnce(n, x);
    }
    forall j | 0 <= j < |s.order|
      ensures s.order[j] < n
    {
      assert s.order[j] in multiset(s.order);
    }
    forall d | 0 <= d < n
      ensures d in s.order
    {
      assert d in multiset(s.order);
    }
    DistinctOnce(s.order);
    HandlesSize(n);
  }

  lemma {:induction false} HandlesSize(n: nat)
    ensures |Handles(n)| == n
  {
    if n > 0 {
      HandlesSize(n - 1);
    }
  }

  /** `b` is `a` with only its parse state and values changed. */
  predicate SameDeclaration(a: Argument, b: Argument) {
    b == a.(isExist := b.isExist, count := b.count, argument := b.argument, elems := b.elems)
  }

  /** `s2` is `s1` with only parse state and values changed. */
  predicate SameDeclarations(s1: State, s2: State) {
    && |s2.args| == |s1.args| && s2.order == s1.order
    && s2.names == s1.names && s2.alternative == s1.alternative && s2.strict == s1.strict
    && (forall k :: 0 <= k < |s1.args| ==> SameDeclaration(s1.args[k], s2.args[k]))
  }

  /** Every name resolves to a declaration that carries it, and every
      name a declaration carries is registered. */
  predicate NamesResolve(s: State) {
    && Indexed(s)
    && (forall n :: n in s.names ==> n in s.args[s.names[n]].nameOrFlags)
    && (forall k, n :: 0 <= k < |s.args| && n in s.args[k].nameOrFlags ==> n in s.names)
  }

  lemma SameDeclarationsTransitive(s1: State, s2: State, s3: State)
    requires SameDeclarations(s1, s2) && SameDeclarations(s2, s3)
    ensures SameDeclarations(s1, s3)
  {
    forall k | 0 <= k < |s1.args|
      ensures SameDeclaration(s1.args[k], s3.args[k])
    {
      assert SameDeclaration(s1.args[k], s2.args[k]);
      assert SameDeclaration(s2.args[k], s3.args[k]);
    }
  }

  lemma SameDeclarationsKeepNames(s1: State, s2: State)
    requires NamesResolve(s1) && SameDeclarations(s1, s2)
    ensures NamesResolve(s2)
    ensures ListOrder(s1) ==> ListOrder(s2)
  {
    SameDeclarationsKeepIndexed(s1, s2);
    forall n | n in s2.names
      ensures n in s2.args[s2.names[n]].nameOrFlags
    {
      assert SameDeclaration(s1.args[s1.names[n]], s2.args[s2.names[n]]);
    }
    forall k, n | 0 <= k < |s2.args| && n in s2.args[k].nameOrFlags
      ensures n in s2.names
    {
      assert SameDeclaration(s1.args[k], s2.args[k]);
    }
  }

  lemma SameDeclarationsKeepIndexed(s1: State, s2: State)
    requires Indexed(s1) && SameDeclarations(s1, s2)
    ensures Indexed(s2)
  {
    forall k | 0 <= k < |s2.args|
      ensures WellFormed(s2.args[k])
    {
      assert SameDeclaration(s1.args[k], s2.args[k]);
    }
  }

  /** The arity class of the declaration a registered key designates. */
  function KindOf(s: State, key: string): ArgType
    requires Indexed(s) && key in s.names
  {
    s.args[s.names[key]].argType
  }

  /** The classes a flag in the middle of a short cluster may take the rest
      of the token as value for (MULTI_NUMBER_INFINITE is not among them). */
  predicate MidClusterValue(t: ArgType) {
    t == SimpleOption || t == NumberOption || t == InfiniteOption
    || t == MultiOption || t == MultiInfiniteOption || t == MultiNumberOption
  }

  predicate IsBoolean(t: ArgType) {
    t == BooleanOption || t == ReverseBooleanOption
  }

  /** `_endOfInfiniteArgument`: whether a token starts a new option and so
      ends a variadic list. */
  function EndOfInfinite(s: State, t: string): (r: bool)
    requires Indexed(s)
    ensures !IsShortOption(t) && !IsLongOption(t) ==> !r
    ensures IsLongOption(t) ==> (r <==> TakeArg(t).option in s.names)
  {
    if IsShortOption(t) then
      var sp := TakeArg(t);
      ShortOptionPart(t);
      if s.alternative && "-" + sp.option in s.names then true
      else ClusterLookahead(s, sp, 1)
    else if IsLongOption(t) then TakeArg(t).option in s.names
    else false
  }

  /** The cluster part of the lookahead, from character `i` of the option. */
  function ClusterLookahead(s: State, sp: Split, i: nat): bool
    requires Indexed(s) && |sp.option| >= 1 && i >= 1
    decreases |sp.option| - i
  {
    if i < |sp.option| - 1 then
      var key := ShortKey(sp.option[i]);
      if key !in s.names then false
      else if !sp.hasArg && MidClusterValue(KindOf(s, key)) then true
      else if IsBoolean(KindOf(s, key)) then true
      else ClusterLookahead(s, sp, i + 1)
    else ShortKey(sp.option[|sp.option| - 1]) in s.names
  }

  /** How many tokens a variadic list takes from position `from`: up to
      `max`, stopping at the first token the lookahead flags, unless the
      lookahead is switched off (`hasEnd`, after a `--`). */
  function TakeCount(s: State, argv: seq<string>, from: nat, max: nat, hasEnd: bool): (k: nat)
    requires Indexed(s) && max <= |argv|
    ensures from <= max ==> from + k <= max
    ensures from > max ==> k == 0
    decreases max - from
  {
    if from >= max then 0
    else if !hasEnd && EndOfInfinite(s, argv[from]) then 0
    else 1 + TakeCount(s, argv, from + 1, max, hasEnd)
  }

  /** A variadic list takes only tokens the lookahead lets through (all
      of them after `--`). */
  lemma {:induction false} TakeCountTakes(s: State, argv: seq<string>, from: nat, max: nat, hasEnd: bool, k: nat)
    requires Indexed(s) && from <= max <= |argv| && k == TakeCount(s, argv, from, max, hasEnd)
    ensures forall j :: from <= j < from + k ==> hasEnd || !EndOfInfinite(s, argv[j])
    decreases max - from
  {
    if from < max && (hasEnd || !EndOfInfinite(s, argv[from])) {
      var k1 := TakeCount(s, argv, from + 1, max, hasEnd);
      assert k == 1 + k1;
      TakeCountTakes(s, argv, from + 1, max, hasEnd, k1);
      forall j | from <= j < from + k
        ensures hasEnd || !EndOfInfinite(s, argv[j])
      {
        if j > from {
          assert from + 1 <= j < from + 1 + k1;
        }
      }
    } else {
      assert k == 0;
    }
  }

  /** A variadic list that ends before `max` ends at a token the lookahead
      flags. */
  lemma {:induction false} TakeCountStops(s: State, argv: seq<string>, from: nat, max: nat, hasEnd: bool, k: nat)
    requires Indexed(s) && from <= max <= |argv| && k == TakeCount(s, argv, from, max, hasEnd)
    ensures from + k < max ==> !hasEnd && EndOfInfinite(s, argv[from + k])
    decreases max - from
  {
    if from < max && (hasEnd || !EndOfInfinite(s, argv[from])) {
      var k1 := TakeCount(s, argv, from + 1, max, hasEnd);
      assert k == 1 + k1;
      TakeCountStops(s, argv, from + 1, max, hasEnd, k1);
      if from + k < max {
        assert argv[from + k] == argv[(from + 1) + k1];
      }
    } else {
      assert k == 0;
      if from < max {
        assert argv[from + k] == argv[from];
      }
    }
  }

  function Leaves(ts: seq<string>): (r: seq<Elem>)
    ensures |r| == |ts|
    ensures forall i :: 0 <= i < |ts| ==> r[i] == Leaf(ts[i])
  {
    seq(|ts|, i requires 0 <= i < |ts| => Leaf(ts[i]))
  }

  /** Whole groups taken by a variadic multi-number list, and the position
      after the last one. */
  datatype Groups = Groups(items: seq<Elem>, end: nat)

  /** Whole groups of `n` tokens from position `i`, stopping at `max` or at
      a token the lookahead flags; `None` when a group would run past `max`. */
  function GroupsFrom(s: State, argv: seq<string>, i: nat, max: nat, n: nat, hasEnd: bool): (r: Option<Groups>)
    requires Indexed(s) && max <= |argv| && n >= 1
    ensures r.Some? && i <= max ==> i <= r.value.end <= max
    ensures r.Some? && i > max ==> r.value.end == i && r.value.items == []
    ensures r.Some? ==> (r.value.items == [] <==> r.value.end == i)
    decreases max - i
  {
    if i >= max then Some(Groups([], i))
    else if !hasEnd && EndOfInfinite(s, argv[i]) then Some(Groups([], i))
    else if i + n > max then None
    else
      match GroupsFrom(s, argv, i + n, max, n, hasEnd)
      case None => None
      case Some(rest) => Some(Groups([Group(argv[i..i + n])] + rest.items, rest.end))
  }

  /** The list a MULTI or MULTI_INFINITE argument keeps before appending:
      its elements once it exists, otherwise nothing (the defaults are
      dropped on the first occurrence). */
  function Kept(a: Argument): seq<Elem> {
    if a.isExist then a.elems else []
  }

  /** What `_parseArgument` leaves: the argument and the cursor. */
  datatype Step = Step(arg: Argument, index: nat)

  /** The value of `_parseArgument` given inline (`-o=value`, `--opt=value`
      or the rest of a short cluster). */
  function InlineValue(option: string, arg: string, a: Argument): (r: Result<Argument>)
    ensures r.Ok? ==> SameDeclaration(a, r.value)
    ensures r.Err? ==> r.error.ParseError? && r.error.name == option
  {
    match a.argType
    case SimpleOption => Ok(a.(argument := arg))
    case NumberOption => Err(ParseError(option, "option cannot use with only 1 argument"))
    case MultiNumberOption => Err(ParseError(option, "option cannot use with only 1 argument"))
    case MultiNumberInfiniteOption => Err(ParseError(option, "option cannot use with only 1 argument"))
    case InfiniteOption => Ok(a.(elems := [Leaf(arg)]))
    case MultiOption => Ok(a.(elems := Kept(a) + [Leaf(arg)]))
    case MultiInfiniteOption => Ok(a.(elems := Kept(a) + [Leaf(arg)]))
    case _ => Err(ParseError(option, "option cannot use with argument"))
  }

  /** The values `_parseArgument` takes from the tokens after `index`,
      stopping before `max`. */
  function NextValues(s: State, argv: seq<string>, max: nat, index: nat, option: string, a: Argument): (r: Result<Step>)
    requires Indexed(s) && WellFormed(a) && index < max <= |argv|
    ensures r.Ok? ==> index <= r.value.index < max
    ensures r.Ok? ==> SameDeclaration(a, r.value.arg)
    ensures r.Err? ==> r.error == ParseError(option, "bad number of argument")
  {
    if a.argType in {SimpleOption, NumberOption, MultiOption, MultiNumberOption} then
      FixedValues(argv, max, index, option, a)
    else if a.argType == InfiniteOption || a.argType == MultiInfiniteOption then
      VariadicValues(s, argv, max, index, a)
    else if a.argType == MultiNumberInfiniteOption then
      GroupValues(s, argv, max, index, option, a)
    else Ok(Step(a, index))
  }

  /** How many tokens the fixed-count classes take: one for SIMPLE and
      MULTI, `nargs` for NUMBER and MULTI_NUMBER. */
  function FixedCount(a: Argument): nat {
    if a.argType == SimpleOption || a.argType == MultiOption then 1 else a.nargs
  }

  /** The argument once the fixed-count class has stored its tokens: SIMPLE
      keeps the token as its value, NUMBER replaces its list with them, MULTI
      appends one value and MULTI_NUMBER one group. */
  function FixedFill(a: Argument, values: seq<string>): (r: Argument)
    requires a.argType in {SimpleOption, NumberOption, MultiOption, MultiNumberOption}
    requires |values| == FixedCount(a)
    ensures SameDeclaration(a, r)
  {
    if a.argType == SimpleOption then a.(argument := values[0])
    else if a.argType == NumberOption then a.(elems := Leaves(values))
    else if a.argType == MultiOption then a.(elems := Kept(a) + [Leaf(values[0])])
    else a.(elems := Kept(a) + [Group(values)])
  }

  /** The fixed-count classes: the tokens after `index`, or an error when
      fewer are left before `max`. */
  function FixedValues(argv: seq<string>, max: nat, index: nat, option: string, a: Argument): (r: Result<Step>)
    requires index < max <= |argv|
    requires a.argType in {SimpleOption, NumberOption, MultiOption, MultiNumberOption}
    ensures r.Ok? ==> index <= r.value.index < max
    ensures r.Ok? ==> SameDeclaration(a, r.value.arg)
    ensures r.Err? ==> r.error == ParseError(option, "bad number of argument")
  {
    var n := FixedCount(a);
    if index + n >= max then Err(ParseError(option, "bad number of argument"))
    else Ok(Step(FixedFill(a, argv[index + 1..index + 1 + n]), index + n))
  }

  /** INFINITE and MULTI_INFINITE: single tokens until the lookahead stops
      them. */
  function VariadicValues(s: State, argv: seq<string>, max: nat, index: nat, a: Argument): (r: Result<Step>)
    requires Indexed(s) && index < max <= |argv|
    requires a.argType == InfiniteOption || a.argType == MultiInfiniteOption
    ensures r.Ok? && index <= r.value.index < max
    ensures SameDeclaration(a, r.value.arg)
  {
    var k := TakeCount(s, argv, index + 1, max, false);
    Ok(Step(VariadicFill(a, Leaves(argv[index + 1..index + 1 + k])), index + k))
  }

  /** INFINITE replaces its list with the values taken, MULTI_INFINITE
      appends them to it. */
  function VariadicFill(a: Argument, items: seq<Elem>): (r: Argument)
    ensures SameDeclaration(a, r)
  {
    if a.argType == InfiniteOption then a.(elems := items) else a.(elems := Kept(a) + items)
  }

  /** MULTI_NUMBER_INFINITE: whole groups of `nargs` tokens until the
      lookahead stops them; an incomplete group is an error. */
  function GroupValues(s: State, argv: seq<string>, max: nat, index: nat, option: string, a: Argument): (r: Result<Step>)
    requires Indexed(s) && WellFormed(a) && index < max <= |argv|
    requires a.argType == MultiNumberInfiniteOption
    ensures r.Ok? ==> index <= r.value.index < max
    ensures r.Ok? ==> SameDeclaration(a, r.value.arg)
    ensures r.Err? ==> r.error == ParseError(option, "bad number of argument")
  {
    match GroupsFrom(s, argv, index + 1, max, a.nargs, false)
    case None => Err(ParseError(option, "bad number of argument"))
    case Some(groups) => Ok(Step(a.(elems := Kept(a) + groups.items), groups.end - 1))
  }

  /** `_parseArgument`: consumes the option's value, inline or from the
      following tokens (before `max`, the position of `--`), then marks the
      argument as present and counts the occurrence. */
  function ParseArgumentSpec(s: State, argv: seq<string>, max: nat, index: nat, hasArg: bool,
                             option: string, arg: string, a: Argument): (r: Result<Step>)
    requires Indexed(s) && WellFormed(a) && index < max <= |argv|
    ensures r.Ok? ==> index <= r.value.index < max
    ensures r.Ok? ==> SameDeclaration(a, r.value.arg) && r.value.arg.isExist
    ensures r.Ok? ==> r.value.arg.count == a.count + 1
    ensures r.Err? ==> r.error.ParseError? && r.error.name == option
  {
    var step :- if hasArg then (var b :- InlineValue(option, arg, a); Ok(Step(b, index)))
                else NextValues(s, argv, max, index, option, a);
    Ok(Step(step.arg.(isExist := true, count := a.count + 1), step.index))
  }

  lemma NextIsFixed(s: State, argv: seq<string>, max: nat, index: nat, option: string, a: Argument)
    requires Indexed(s) && WellFormed(a) && index < max <= |argv|
    requires a.argType in {SimpleOption, NumberOption, MultiOption, MultiNumberOption}
    ensures NextValues(s, argv, max, index, option, a) == FixedValues(argv, max, index, option, a)
  {
  }

  lemma FixedValuesCases(argv: seq<string>, max: nat, index: nat, option: string, a: Argument)
    requires index < max <= |argv|
    requires a.argType in {SimpleOption, NumberOption, MultiOption, MultiNumberOption}
    ensures FixedValues(argv, max, index, option, a) ==
              if index + FixedCount(a) < max then
                Ok(Step(FixedFill(a, argv[index + 1..index + 1 + FixedCount(a)]), index + FixedCount(a)))
              else Err(ParseError(option, "bad number of argument"))
  {
  }

  lemma SpecOfNext(s: State, argv: seq<string>, max: nat, index: nat, option: string, arg: string, a: Argument)
    requires Indexed(s) && WellFormed(a) && index < max <= |argv|
    ensures var next := NextValues(s, argv, max, index, option, a);
            ParseArgumentSpec(s, argv, max, index, false, option, arg, a) ==
              if next.Ok? then Ok(Step(next.value.arg.(isExist := true, count := a.count + 1), next.value.index))
              else Err(next.error)
  {
  }

  /** The state after `_parseArgument` changed the declaration at `h`. */
  function Store(s: State, h: nat, a: Argument): (r: State)
    requires h < |s.args| && SameDeclaration(s.args[h], a)
    ensures SameDeclarations(s, r)
    ensures Indexed(s) ==> Indexed(r)
  {
    s.(args := s.args[h := a])
  }

  /** `_parseArgument` on the declaration at `h`, with the state it leaves. */
  function ParseArgumentAt(s: State, argv: seq<string>, max: nat, index: nat, hasArg: bool,
                           option: string, arg: string, h: nat): (r: Result<(State, nat)>)
    requires Indexed(s) && h < |s.args| && index < max <= |argv|
    ensures r.Ok? ==> SameDeclarations(s, r.value.0) && Indexed(r.value.0) && index <= r.value.1 < max
    ensures r.Err? ==> r.error.ParseError? && r.error.name == option
  {
    var step :- ParseArgumentSpec(s, argv, max, index, hasArg, option, arg, s.args[h]);
    Ok((Store(s, h, step.arg), step.index))
  }

  /** How a parse routine that returns the new cursor follows its
      specification: the same exception, or the same cursor and state. */
  predicate Follows(spec: Result<(State, nat)>, r: Result<nat>, now: State) {
    && (spec.Err? ==> r == Err(spec.error))
    && (spec.Ok? ==> r == Ok(spec.value.1) && now == spec.value.0)
  }

  /** How the token walk follows its specification: the same exception,
      or the same state. */
  predicate FollowsWalk(spec: Result<State>, r: Result<()>, now: State) {
    && (spec.Err? ==> r == Err(spec.error))
    && (spec.Ok? ==> r == Ok(()) && now == spec.value)
  }

  /** How `parseArguments` and its last part follow their specification:
      the same exception, or the same outcome and state. */
  predicate Concludes(spec: Result<(Outcome, State)>, r: Result<Outcome>, now: State) {
    && (spec.Err? ==> r == Err(spec.error))
    && (spec.Ok? ==> r == Ok(spec.value.0) && now == spec.value.1)
  }

  /** `_parseShortArgument` on the token at `index`: a whole long-style flag
      in alternative mode, otherwise a cluster of one-character flags. */
  function ShortSpec(s: State, argv: seq<string>, max: nat, index: nat): (r: Result<(State, nat)>)
    requires Indexed(s) && index < max <= |argv| && IsShortOption(argv[index])
    ensures r.Ok? ==> SameDeclarations(s, r.value.0) && index <= r.value.1 < max
  {
    var sp := TakeArg(argv[index]);
    ShortOptionPart(argv[index]);
    if s.alternative && "-" + sp.option in s.names then
      ParseArgumentAt(s, argv, max, index, sp.hasArg, sp.option[1..], sp.arg, s.names["-" + sp.option])
    else ClusterSpec(s, argv, max, index, sp)
  }

  /** The flag `h` counted once more and marked present. */
  function Bump(s: State, h: nat): (r: State)
    requires h < |s.args|
    ensures SameDeclarations(s, r) && (Indexed(s) ==> Indexed(r))
  {
    Store(s, h, s.args[h].(isExist := true, count := s.args[h].count + 1))
  }

  /** Where the cluster loop of `_parseShortArgument` stops: on an
      exception, at a flag that takes the rest of the token as its value,
      or at the last character. */
  datatype ClusterStop = Failed(error: Failure) | TakesRest(at: nat) | AtLast

  /** The cluster loop from character `i`: each boolean flag is counted,
      and the loop stops at the first character that is not one. */
  function ClusterScan(s: State, sp: Split, i: nat): (r: (State, ClusterStop))
    requires Indexed(s) && i >= 1
    ensures SameDeclarations(s, r.0) && Indexed(r.0)
    ensures r.1.Failed? ==> r.1.error.ParseError?
    ensures r.1.TakesRest? ==>
              && i <= r.1.at < |sp.option| - 1 && !sp.hasArg
              && ShortKey(sp.option[r.1.at]) in r.0.names
              && MidClusterValue(KindOf(r.0, ShortKey(sp.option[r.1.at])))
    decreases |sp.option| - i
  {
    if i < |sp.option| - 1 then
      var c := sp.option[i];
      if ShortKey(c) !in s.names then (s, Failed(ParseError([c], "invalid option")))
      else
        var h := s.names[ShortKey(c)];
        var a := s.args[h];
        if !sp.hasArg && MidClusterValue(a.argType) then (s, TakesRest(i))
        else if !IsBoolean(a.argType) then (s, Failed(ParseError([c], "only last option can be use a parameter")))
        else
          var r := ClusterScan(Bump(s, h), sp, i + 1);
          SameDeclarationsTransitive(s, Bump(s, h), r.0);
          r
    else (s, AtLast)
  }

  /** The cluster part of `_parseShortArgument`: the loop, then
      `_parseArgument` on the flag where it stopped. */
  function ClusterSpec(s: State, argv: seq<string>, max: nat, index: nat, sp: Split): (r: Result<(State, nat)>)
    requires Indexed(s) && index < max <= |argv| && |sp.option| >= 1
    ensures r.Ok? ==> SameDeclarations(s, r.value.0) && index <= r.value.1 < max
    ensures r.Err? ==> r.error.ParseError?
  {
    var scan := ClusterScan(s, sp, 1);
    match scan.1
    case Failed(e) => Err(e)
    case TakesRest(i) =>
      var r := RestSpec(scan.0, argv, max, index, sp, i);
      if r.Ok? then SameDeclarationsTransitive(s, scan.0, r.value.0); r else r
    case AtLast =>
      var r := LastSpec(scan.0, argv, max, index, sp);
      if r.Ok? then SameDeclarationsTransitive(s, scan.0, r.value.0); r else r
  }

  /** A flag inside a cluster that takes the rest of the token as its
      value: it is counted by the loop, and once more by `_parseArgument`. */
  function RestSpec(s: State, argv: seq<string>, max: nat, index: nat, sp: Split, i: nat): (r: Result<(State, nat)>)
    requires Indexed(s) && index < max <= |argv| && i < |sp.option| && ShortKey(sp.option[i]) in s.names
    ensures r.Ok? ==> SameDeclarations(s, r.value.0) && index <= r.value.1 < max
    ensures r.Err? ==> r.error.ParseError?
  {
    var h := s.names[ShortKey(sp.option[i])];
    var r := ParseArgumentAt(Bump(s, h), argv, max, index, true, [sp.option[i]], sp.option[i + 1..], h);
    if r.Ok? then SameDeclarationsTransitive(s, Bump(s, h), r.value.0); r else r
  }

  /** The last character of a cluster, which takes the inline value. */
  function LastSpec(s: State, argv: seq<string>, max: nat, index: nat, sp: Split): (r: Result<(State, nat)>)
    requires Indexed(s) && index < max <= |argv| && |sp.option| >= 1
    ensures r.Ok? ==> SameDeclarations(s, r.value.0) && index <= r.value.1 < max
    ensures r.Err? ==> r.error.ParseError?
  {
    var c := sp.option[|sp.option| - 1];
    if ShortKey(c) !in s.names then Err(ParseError([c], "invalid option"))
    else ParseArgumentAt(s, argv, max, index, sp.hasArg, [c], sp.arg, s.names[ShortKey(c)])
  }

  /** `_parseLongArgument` on the token at `index`. */
  function LongSpec(s: State, argv: seq<string>, max: nat, index: nat): (r: Result<(State, nat)>)
    requires Indexed(s) && index < max <= |argv| && IsLongOption(argv[index])
    ensures r.Ok? ==> SameDeclarations(s, r.value.0) && index <= r.value.1 < max
  {
    var sp := TakeArg(argv[index]);
    LongOptionPart(argv[index]);
    if sp.option !in s.names then Err(ParseError(sp.option[2..], "invalid option"))
    else
      ParseArgumentAt(s, argv, max, index, sp.hasArg, sp.option[2..], sp.arg, s.names[sp.option])
  }

  /** Place in the list of the first positional declaration that is
      not yet present, or `|order|`. */
  function FirstOpenPositional(args: seq<Argument>, order: seq<nat>): (j: nat)
    requires HandlesBelow(order, |args|)
    ensures j <= |order|
    ensures j < |order| ==> !args[order[j]].isExist && IsPositional(args[order[j]].argType)
    ensures forall i :: 0 <= i < j ==> args[order[i]].isExist || !IsPositional(args[order[i]].argType)
  {
    if |order| == 0 then 0
    else if !args[order[0]].isExist && IsPositional(args[order[0]].argType) then 0
    else 1 + FirstOpenPositional(args, order[1..])
  }

  /** `_parsePositionnalArgument` on the plain token at `index`: fills the
      first open positional in list order, or keeps the token as an
      additional argument (an error in strict mode). `argc` is where its
      lists stop. */
  function PositionalSpec(s: State, argv: seq<string>, argc: nat, index: nat, hasEnd: bool): (r: Result<(State, nat)>)
    requires Indexed(s) && index < argc <= |argv|
    requires hasEnd || !EndOfInfinite(s, argv[index])
    ensures r.Ok? ==> index <= r.value.1 < argc
    ensures r.Ok? ==> SameDeclarations(s, r.value.0) && Indexed(r.value.0)
  {
    var j := FirstOpenPositional(s.args, s.order);
    if j < |s.order| then
      var k := s.order[j];
      match PositionalFill(s, argv, argc, index, hasEnd, s.args[k])
      case Err(e) => Err(e)
      case Ok(step) =>
        var s1 := Store(s, k, step.arg.(isExist := true));
        SameDeclarationsKeepIndexed(s, s1);
        Ok((s1, step.index))
    else if s.strict then Err(ParseError(argv[index], "invalid additional argument"))
    else Ok((s.(additional := s.additional + [argv[index]]), index))
  }

  /** The values the positional argument `a` takes from the token at
      `index` on: one token, exactly `nargs`, single tokens until the
      lookahead stops them, or whole groups of `nargs`. */
  function PositionalFill(s: State, argv: seq<string>, argc: nat, index: nat, hasEnd: bool, a: Argument): (r: Result<Step>)
    requires Indexed(s) && index < argc <= |argv| && WellFormed(a)
    requires hasEnd || !EndOfInfinite(s, argv[index])
    ensures r.Ok? ==> index <= r.value.index < argc && SameDeclaration(a, r.value.arg)
    ensures r.Ok? ==> r.value.arg.isExist == a.isExist && r.value.arg.count == a.count
    ensures r.Err? ==> r.error == ParseError(Front(a), "bad number of argument")
  {
    if a.argType == PositionalArgument then Ok(Step(SetArgument(a, argv[index]), index))
    else if a.argType == NumberPositionalArgument then NumberPositional(argv, argc, index, a)
    else if a.argType == InfinitePositionalArgument then InfinitePositional(s, argv, argc, index, hasEnd, a)
    else if a.argType == InfiniteNumberPositionalArgument then GroupPositional(s, argv, argc, index, hasEnd, a)
    else Ok(Step(a, index))
  }

  /** POSITIONAL_ARGUMENT: the token itself is the value. */
  function SetArgument(a: Argument, t: string): (r: Argument)
    ensures SameDeclaration(a, r) && r.argument == t && r.elems == a.elems && r.isExist == a.isExist && r.count == a.count
  {
    a.(argument := t)
  }

  /** `push_back` of the values taken onto the argument's list. */
  function Appended(a: Argument, items: seq<Elem>): (r: Argument)
    ensures SameDeclaration(a, r) && r.elems == a.elems + items && r.argument == a.argument && r.isExist == a.isExist && r.count == a.count
  {
    a.(elems := a.elems + items)
  }

  /** NUMBER_POSITIONAL_ARGUMENT: exactly `nargs` tokens from `index`. */
  function NumberPositional(argv: seq<string>, argc: nat, index: nat, a: Argument): (r: Result<Step>)
    requires index < argc <= |argv| && WellFormed(a) && a.argType == NumberPositionalArgument
    ensures r.Ok? ==> index <= r.value.index < argc && SameDeclaration(a, r.value.arg)
    ensures r.Err? ==> r.error == ParseError(Front(a), "bad number of argument")
  {
    if index + a.nargs > argc then Err(ParseError(Front(a), "bad number of argument"))
    else Ok(Step(Appended(a, Leaves(argv[index..index + a.nargs])), index + a.nargs - 1))
  }

  /** INFINITE_POSITIONAL_ARGUMENT: single tokens from `index` until the
      lookahead stops them; the token at `index` is always taken. */
  function InfinitePositional(s: State, argv: seq<string>, argc: nat, index: nat, hasEnd: bool, a: Argument): (r: Result<Step>)
    requires Indexed(s) && index < argc <= |argv|
    requires hasEnd || !EndOfInfinite(s, argv[index])
    ensures r.Ok? && index <= r.value.index < argc && SameDeclaration(a, r.value.arg)
  {
    var c := TakeCount(s, argv, index, argc, hasEnd);
    assert c >= 1;
    Ok(Step(Appended(a, Leaves(argv[index..index + c])), index + c - 1))
  }

  /** INFINITE_NUMBER_POSITIONAL_ARGUMENT: whole groups of `nargs` tokens
      from `index`; an incomplete group is an error. */
  function GroupPositional(s: State, argv: seq<string>, argc: nat, index: nat, hasEnd: bool, a: Argument): (r: Result<Step>)
    requires Indexed(s) && index < argc <= |argv| && WellFormed(a) && a.argType == InfiniteNumberPositionalArgument
    requires hasEnd || !EndOfInfinite(s, argv[index])
    ensures r.Ok? ==> index <= r.value.index < argc && SameDeclaration(a, r.value.arg)
    ensures r.Err? ==> r.error == ParseError(Front(a), "bad number of argument")
  {
    match GroupsFrom(s, argv, index, argc, a.nargs, hasEnd)
    case None => Err(ParseError(Front(a), "bad number of argument"))
    case Some(groups) =>
      assert groups.items != [] by { PositionalGroupsNotEmpty(s, argv, index, argc, a.nargs, hasEnd); }
      Ok(Step(Appended(a, groups.items), groups.end - 1))
  }

  lemma PositionalGroupsNotEmpty(s: State, argv: seq<string>, index: nat, argc: nat, n: nat, hasEnd: bool)
    requires Indexed(s) && index < argc <= |argv| && n >= 1
    requires hasEnd || !EndOfInfinite(s, argv[index])
    requires GroupsFrom(s, argv, index, argc, n, hasEnd).Some?
    ensures GroupsFrom(s, argv, index, argc, n, hasEnd).value.items != []
  {
  }

  /** Where the walk may stand: at or before `e`, the position of the
      first `--` (or the end of the vector). */
  predicate EndMarkerAt(argv: seq<string>, e: nat) {
    e <= |argv| && (e < |argv| ==> argv[e] == "--")
  }

  /** The cursor walk of `parseArguments` from token `i`: it ends with the
      vector. */
  function WalkFrom(s: State, argv: seq<string>, e: nat, i: nat): (r: Result<State>)
    requires Indexed(s) && EndMarkerAt(argv, e) && i <= e
    ensures r.Ok? ==> SameDeclarations(s, r.value) && Indexed(r.value)
    decreases |argv| - i, 2
  {
    if i >= |argv| then Ok(s) else WalkAt(s, argv, e, i)
  }

  /** The walk at a token: `--` hands over to the loop after it. */
  function WalkAt(s: State, argv: seq<string>, e: nat, i: nat): (r: Result<State>)
    requires Indexed(s) && EndMarkerAt(argv, e) && i <= e && i < |argv|
    ensures r.Ok? ==> SameDeclarations(s, r.value) && Indexed(r.value)
    decreases |argv| - i, 1
  {
    if IsEndOption(argv[i]) then AfterEnd(s, argv, i) else WalkOn(s, argv, e, i)
  }

  /** The walk takes the token at `i` and goes on after the cursor it
      returns. */
  function WalkOn(s: State, argv: seq<string>, e: nat, i: nat): (r: Result<State>)
    requires Indexed(s) && EndMarkerAt(argv, e) && i < e
    ensures r.Ok? ==> SameDeclarations(s, r.value) && Indexed(r.value)
    decreases |argv| - i, 0
  {
    var (s1, j) :- TokenSpec(s, argv, e, i);
    var r := WalkFrom(s1, argv, e, j + 1);
    if r.Ok? then SameDeclarationsTransitive(s, s1, r.value); r else r
  }

  /** One token of the walk before `--`: a short option, a long option or
      a positional value. */
  function TokenSpec(s: State, argv: seq<string>, e: nat, i: nat): (r: Result<(State, nat)>)
    requires Indexed(s) && EndMarkerAt(argv, e) && i < e
    ensures r.Ok? ==> SameDeclarations(s, r.value.0) && Indexed(r.value.0) && i <= r.value.1 < e
  {
    if IsShortOption(argv[i]) then
      var r := ShortSpec(s, argv, e, i);
      if r.Ok? then SameDeclarationsKeepIndexed(s, r.value.0); r else r
    else if IsLongOption(argv[i]) then
      var r := LongSpec(s, argv, e, i);
      if r.Ok? then SameDeclarationsKeepIndexed(s, r.value.0); r else r
    else PositionalSpec(s, argv, e, i, false)
  }

  /** The walk stops at the end of the vector with the state it has. */
  lemma WalkFromDone(s: State, argv: seq<string>, e: nat, i: nat)
    requires Indexed(s) && EndMarkerAt(argv, e) && i <= e && i >= |argv|
    ensures WalkFrom(s, argv, e, i) == Ok(s)
  {
  }

  /** Before `--` the walk takes one token and goes on after the cursor it
      returns. */
  lemma WalkFromToken(s: State, argv: seq<string>, e: nat, i: nat)
    requires Indexed(s) && EndMarkerAt(argv, e) && i < e && !IsEndOption(argv[i])
    ensures TokenSpec(s, argv, e, i).Err? ==> WalkFrom(s, argv, e, i) == Err(TokenSpec(s, argv, e, i).error)
    ensures TokenSpec(s, argv, e, i).Ok? ==>
              WalkFrom(s, argv, e, i) == WalkFrom(TokenSpec(s, argv, e, i).value.0, argv, e, TokenSpec(s, argv, e, i).value.1 + 1)
  {
    assert WalkFrom(s, argv, e, i) == WalkAt(s, argv, e, i) == WalkOn(s, argv, e, i);
  }

  /** The same step for a run of the token parser that follows its
      specification, ending in `now` with cursor result `r`. */
  lemma WalkFollowsToken(s: State, argv: seq<string>, e: nat, i: nat, r: Result<nat>, now: State)
    requires Indexed(s) && Indexed(now) && EndMarkerAt(argv, e) && i < e && !IsEndOption(argv[i])
    requires Follows(TokenSpec(s, argv, e, i), r, now)
    ensures r.Err? ==> WalkFrom(s, argv, e, i) == Err(r.error)
    ensures r.Ok? ==> i <= r.value < e && WalkFrom(s, argv, e, i) == WalkFrom(now, argv, e, r.value + 1)
  {
    WalkFromToken(s, argv, e, i);
  }

  /** At `--` the walk hands over to the loop after it. */
  lemma WalkFromEnd(s: State, argv: seq<string>, e: nat, i: nat)
    requires Indexed(s) && EndMarkerAt(argv, e) && i <= e && i < |argv| && IsEndOption(argv[i])
    ensures WalkFrom(s, argv, e, i) == AfterEnd(s, argv, i)
  {
    assert WalkFrom(s, argv, e, i) == WalkAt(s, argv, e, i);
  }

  /** The loop after `--`, with the cursor `i` on the last token taken (the
      `--` itself at first): the cursor steps on. */
  function AfterEnd(s: State, argv: seq<string>, i: nat): (r: Result<State>)
    requires Indexed(s) && i < |argv|
    ensures r.Ok? ==> SameDeclarations(s, r.value) && Indexed(r.value)
    decreases |argv| - i, 0
  {
    AfterEndNext(s, argv, i + 1)
  }

  /** The loop after `--` at cursor `i`: it ends with the vector. */
  function AfterEndNext(s: State, argv: seq<string>, i: nat): (r: Result<State>)
    requires Indexed(s) && i <= |argv|
    ensures r.Ok? ==> SameDeclarations(s, r.value) && Indexed(r.value)
    decreases |argv| - i, 2
  {
    if i >= |argv| then Ok(s) else AfterEndOn(s, argv, i)
  }

  /** The loop after `--` takes the token at `i` as a positional value,
      with the lookahead switched off. */
  function AfterEndOn(s: State, argv: seq<string>, i: nat): (r: Result<State>)
    requires Indexed(s) && i < |argv|
    ensures r.Ok? ==> SameDeclarations(s, r.value) && Indexed(r.value)
    decreases |argv| - i, 1
  {
    var (s1, j) :- PositionalSpec(s, argv, |argv|, i, true);
    var r := AfterEnd(s1, argv, j);
    if r.Ok? then SameDeclarationsTransitive(s, s1, r.value); r else r
  }

  /** The loop after `--` stops at the end of the vector with the state it has. */
  lemma AfterEndDone(s: State, argv: seq<string>, i: nat)
    requires Indexed(s) && i < |argv| && i + 1 >= |argv|
    ensures AfterEnd(s, argv, i) == Ok(s)
  {
    assert AfterEnd(s, argv, i) == AfterEndNext(s, argv, i + 1);
  }

  /** After `--` the loop takes the token after the cursor as a positional
      value and goes on from the cursor it returns. */
  lemma AfterEndToken(s: State, argv: seq<string>, i: nat)
    requires Indexed(s) && 1 <= i < |argv|
    ensures PositionalSpec(s, argv, |argv|, i, true).Err? ==>
              AfterEnd(s, argv, i - 1) == Err(PositionalSpec(s, argv, |argv|, i, true).error)
    ensures PositionalSpec(s, argv, |argv|, i, true).Ok? ==>
              AfterEnd(s, argv, i - 1) ==
                AfterEnd(PositionalSpec(s, argv, |argv|, i, true).value.0, argv, PositionalSpec(s, argv, |argv|, i, true).value.1)
  {
    assert AfterEnd(s, argv, i - 1) == AfterEndNext(s, argv, i) == AfterEndOn(s, argv, i);
  }

  /** Place in the list of the first required declaration that is not
      present, or `|order|`. */
  function FirstMissing(args: seq<Argument>, order: seq<nat>): (j: nat)
    requires HandlesBelow(order, |args|)
    ensures j <= |order|
    ensures j < |order| ==> args[order[j]].isRequired && !args[order[j]].isExist
    ensures forall i :: 0 <= i < j ==> !args[order[i]].isRequired || args[order[i]].isExist
  {
    if |order| == 0 then 0
    else if args[order[0]].isRequired && !args[order[0]].isExist then 0
    else 1 + FirstMissing(args, order[1..])
  }

  /** The required check after the walk, in list order. */
  function RequiredCheck(args: seq<Argument>, order: seq<nat>): (r: Result<seq<Argument>>)
    requires HandlesBelow(order, |args|)
    requires forall k :: 0 <= k < |args| ==> WellFormed(args[k])
    ensures r.Ok? <==> forall j :: 0 <= j < |order| ==> args[order[j]].isRequired ==> args[order[j]].isExist
    ensures r.Ok? ==> r.value == args
  {
    var j := FirstMissing(args, order);
    if j == |order| then Ok(args)
    else
    var k := order[j];
    assert WellFormed(args[k]);
    if args[k].argType == PositionalArgument then Err(RequiredError(Front(args[k]), "argument is required"))
    else Err(RequiredError(Front(args[k]), "option is required"))
  }

  /** The validator pass on one declaration: a present argument with a
      validator has its values checked and written back; every failure is
      reported with the argument's first name. */
  function ValidateOne(h: Helpers, a: Argument): (r: Result<Argument>)
    requires WellFormed(a)
    ensures r.Ok? ==> r.value == a.(argument := r.value.argument, elems := r.value.elems)
    ensures r.Err? ==> r.error.ValidError? && r.error.name == Front(a)
  {
    if !a.isExist || a.valid.None? then Ok(a)
    else
      match IsValid(a.valid.value, h.customValid, h.strToNumber, h.numberToStr, ValidationValues(a))
      case Rejected(message) => Err(ValidError(Front(a), message))
      case Checked(ok, values) =>
        if !ok then Err(ValidError(Front(a), "invalid check function"))
        else
          match WriteBack(a, values)
          case Err(e) => Err(ValidError(Front(a), e.message))
          case Ok(b) => Ok(b)
  }

  /** The validator pass over the list from place `k`: a declaration the
      pass has not reached from `k` on is left as it was. */
  function ValidateFrom(h: Helpers, args: seq<Argument>, order: seq<nat>, k: nat): (r: Result<seq<Argument>>)
    requires k <= |order| && HandlesBelow(order, |args|)
    requires forall j :: 0 <= j < |args| ==> WellFormed(args[j])
    ensures r.Ok? ==> |r.value| == |args|
    ensures r.Ok? ==> forall d :: 0 <= d < |args| && d !in order[k..] ==> r.value[d] == args[d]
    ensures r.Ok? ==> forall d :: 0 <= d < |args| ==> SameDeclaration(args[d], r.value[d])
    ensures r.Err? ==> r.error.ValidError?
    decreases |order| - k, 1
  {
    if k == |order| then Ok(args) else ValidateAt(h, args, order, k)
  }

  /** The validator pass at place `k` of the list: checks that
      declaration, writes it back and goes on with the next one. */
  function ValidateAt(h: Helpers, args: seq<Argument>, order: seq<nat>, k: nat): (r: Result<seq<Argument>>)
    requires k < |order| && HandlesBelow(order, |args|)
    requires forall j :: 0 <= j < |args| ==> WellFormed(args[j])
    ensures r.Ok? ==> |r.value| == |args|
    ensures r.Ok? ==> forall d :: 0 <= d < |args| && d !in order[k..] ==> r.value[d] == args[d]
    ensures r.Ok? ==> forall d :: 0 <= d < |args| ==> SameDeclaration(args[d], r.value[d])
    ensures r.Err? ==> r.error.ValidError?
    decreases |order| - k, 0
  {
    var b :- ValidateOne(h, args[order[k]]);
    var r := ValidateFrom(h, args[order[k] := b], order, k + 1);
    assert order[k..] == [order[k]] + order[k + 1..];
    r
  }

  /** A successful validator pass leaves every declaration listed from
      `k` on as its own check returned it. */
  lemma {:induction false} ValidatedOneByOne(h: Helpers, args: seq<Argument>, order: seq<nat>, k: nat)
    requires k <= |order| && HandlesBelow(order, |args|) && Distinct(order)
    requires forall j :: 0 <= j < |args| ==> WellFormed(args[j])
    requires ValidateFrom(h, args, order, k).Ok?
    ensures forall j :: k <= j < |order| ==>
              ValidateOne(h, args[order[j]]) == Ok(ValidateFrom(h, args, order, k).value[order[j]])
    decreases |order| - k
  {
    if k < |order| {
      ValidateFromStep(h, args, order, k);
      var b := ValidateOne(h, args[order[k]]).value;
      var next := args[order[k] := b];
      ValidatedOneByOne(h, next, order, k + 1);
      var r := ValidateFrom(h, next, order, k + 1).value;
      assert order[k] !in order[k + 1..] by {
        forall i | k + 1 <= i < |order|
          ensures order[i] != order[k]
        {
        }
      }
      assert r[order[k]] == b;
      forall j | k < j < |order|
        ensures ValidateOne(h, args[order[j]]) == Ok(r[order[j]])
      {
        assert next[order[j]] == args[order[j]];
      }
    }
  }

  /** The validator pass stops at the first failure, and otherwise goes on
      with the checked declaration written back. */
  lemma ValidateFromStep(h: Helpers, args: seq<Argument>, order: seq<nat>, k: nat)
    requires k < |order| && HandlesBelow(order, |args|)
    requires forall j :: 0 <= j < |args| ==> WellFormed(args[j])
    ensures ValidateOne(h, args[order[k]]).Err? ==>
              ValidateFrom(h, args, order, k) == Err(ValidateOne(h, args[order[k]]).error)
    ensures ValidateOne(h, args[order[k]]).Ok? ==>
              && WellFormed(ValidateOne(h, args[order[k]]).value)
              && ValidateFrom(h, args, order, k) ==
                   ValidateFrom(h, args[order[k] := ValidateOne(h, args[order[k]]).value], order, k + 1)
  {
    assert ValidateFrom(h, args, order, k) == ValidateAt(h, args, order, k);
  }

  /** How `parseArguments` ends when it does not throw. */
  datatype Outcome = Parsed | HelpRequested | VersionRequested

  /** Whether a present declaration carries the given action. */
  predicate ActionSeen(args: seq<Argument>, act: Action) {
    exists k :: 0 <= k < |args| && args[k].action == act && args[k].isExist
  }

  /** `parseArguments(argc, argv, alternative, strict)` on the registry `s`. */
  function ParseSpec(h: Helpers, s: State, argv: seq<string>, alternative: bool, strict: bool): (r: Result<(Outcome, State)>)
    requires Indexed(s) && |argv| >= 1
    ensures r.Ok? ==> SameDeclarations(s.(alternative := alternative, strict := strict), r.value.1)
  {
    var s0 := s.(alternative := alternative, strict := strict);
    var walked :- WalkFrom(s0, argv, EndOptionIndex(argv), 1);
    var r := FinishSpec(h, walked);
    if r.Ok? then SameDeclarationsTransitive(s0, walked, r.value.1); r else r
  }

  /** What `parseArguments` does after the walk: stops for a present help
      or version flag, then runs the required check and the validators. */
  function FinishSpec(h: Helpers, s: State): (r: Result<(Outcome, State)>)
    requires Indexed(s)
    ensures r.Ok? ==> SameDeclarations(s, r.value.1)
  {
    if ActionSeen(s.args, HelpAction) then Ok((HelpRequested, s))
    else if ActionSeen(s.args, VersionAction) then Ok((VersionRequested, s))
    else
      var _ :- RequiredCheck(s.args, s.order);
      var validated :- ValidateFrom(h, s.args, s.order, 0);
      Ok((Parsed, s.(args := validated)))
  }
}
