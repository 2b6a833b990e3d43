/**
  Properties of the parts of `parseArguments` that come after the options:
  how plain tokens fill the positional declarations or become additional
  arguments, what `--` changes, and what the required check and the
  validator pass guarantee once parsing ends.
 */
module RunProperties {
  import opened Exceptions
  import opened Tokens
  import opened Validators
  import opened Arguments
  import opened Engine
  import Properties

  // ---------------------------------------------------------------------
  // _parsePositionnalArgument

  /** A plain token goes to the first positional declaration not yet
      present in list order: that one, and only that one, becomes present
      (its count is left alone), and the next plain token goes further on
      in the list. */
  lemma PositionalFillsFirstOpen(s: State, argv: seq<string>, argc: nat, index: nat, hasEnd: bool, j: nat,
                                 r: Result<(State, nat)>)
    requires Indexed(s) && index < argc <= |argv| && (hasEnd || !EndOfInfinite(s, argv[index]))
    requires j == FirstOpenPositional(s.args, s.order) && j < |s.order|
    requires r == PositionalSpec(s, argv, argc, index, hasEnd)
    ensures r.Err? ==> r.error == ParseError(Front(s.args[s.order[j]]), "bad number of argument")
    ensures r.Ok? ==> r.value.0.args[s.order[j]].isExist && r.value.0.args[s.order[j]].count == s.args[s.order[j]].count
    ensures r.Ok? ==> forall d :: 0 <= d < |s.args| && d != s.order[j] ==> r.value.0.args[d] == s.args[d]
    ensures r.Ok? ==> r.value.0.additional == s.additional && r.value.0.order == s.order
    ensures r.Ok? ==> FirstOpenPositional(r.value.0.args, s.order) > j
  {
    if r.Ok? {
      var step := PositionalFill(s, argv, argc, index, hasEnd, s.args[s.order[j]]).value;
      assert r.value.0.args == s.args[s.order[j] := step.arg.(isExist := true)];
      FirstOpenAdvances(s.args, s.order, j, step.arg.(isExist := true));
    }
  }

  /** Making the first open positional declaration present moves the
      first open one further on in the list. */
  lemma FirstOpenAdvances(args: seq<Argument>, order: seq<nat>, j: nat, a: Argument)
    requires HandlesBelow(order, |args|)
    requires j == FirstOpenPositional(args, order) && j < |order| && a.isExist
    ensures FirstOpenPositional(args[order[j] := a], order) > j
  {
    var next := args[order[j] := a];
    forall i | 0 <= i <= j
      ensures next[order[i]].isExist || !IsPositional(next[order[i]].argType)
    {
      if order[i] != order[j] {
        assert next[order[i]] == args[order[i]];
      }
    }
  }

  /** Once every positional declaration is present, a plain token is kept
      as an additional argument, or refused in strict mode; the cursor
      stays on it. */
  lemma PositionalExtra(s: State, argv: seq<string>, argc: nat, index: nat, hasEnd: bool, r: Result<(State, nat)>)
    requires Indexed(s) && index < argc <= |argv| && (hasEnd || !EndOfInfinite(s, argv[index]))
    requires FirstOpenPositional(s.args, s.order) == |s.order|
    requires r == PositionalSpec(s, argv, argc, index, hasEnd)
    ensures r.Err? <==> s.strict
    ensures r.Err? ==> r.error == ParseError(argv[index], "invalid additional argument")
    ensures r.Ok? ==> r.value == (s.(additional := s.additional + [argv[index]]), index)
  {
  }

  lemma AppendShift(x: seq<string>, argv: seq<string>, i: nat)
    requires i < |argv|
    ensures x + argv[i..] == (x + [argv[i]]) + argv[i + 1..]
  {
    assert argv[i..] == [argv[i]] + argv[i + 1..];
  }

  /** POSITIONAL_ARGUMENT takes the token as its value; NUMBER_POSITIONAL
      takes exactly `nargs` tokens, or fails when fewer are left before
      `argc`. Both append nothing else and leave the cursor on the last
      token taken. */
  lemma FixedPositionalValues(s: State, argv: seq<string>, argc: nat, index: nat, hasEnd: bool, a: Argument, r: Result<Step>)
    requires Indexed(s) && index < argc <= |argv| && WellFormed(a) && (hasEnd || !EndOfInfinite(s, argv[index]))
    requires a.argType == PositionalArgument || a.argType == NumberPositionalArgument
    requires r == PositionalFill(s, argv, argc, index, hasEnd, a)
    ensures a.argType == PositionalArgument ==>
              r == Ok(Step(a.(argument := argv[index]), index))
    ensures a.argType == NumberPositionalArgument ==>
              && (r.Ok? <==> index + a.nargs <= argc)
              && (r.Ok? ==> r.value.index == index + a.nargs - 1
                            && r.value.arg.elems == a.elems + Leaves(argv[index..index + a.nargs]))
  {
  }

  /** INFINITE_POSITIONAL takes single tokens from `index` on: every one
      the lookahead lets through, up to `argc` or to the first one it
      flags; the token at `index` is always taken. */
  lemma InfinitePositionalStops(s: State, argv: seq<string>, argc: nat, index: nat, hasEnd: bool, a: Argument, r: Result<Step>)
    requires Indexed(s) && index < argc <= |argv| && (hasEnd || !EndOfInfinite(s, argv[index]))
    requires r == InfinitePositional(s, argv, argc, index, hasEnd, a)
    ensures r.Ok? && index <= r.value.index < argc
    ensures r.value.arg.elems == a.elems + Leaves(argv[index..r.value.index + 1])
    ensures forall j :: index <= j <= r.value.index ==> hasEnd || !EndOfInfinite(s, argv[j])
    ensures r.value.index + 1 < argc ==> !hasEnd && EndOfInfinite(s, argv[r.value.index + 1])
  {
    var c := TakeCount(s, argv, index, argc, hasEnd);
    TakeCountTakes(s, argv, index, argc, hasEnd, c);
    TakeCountStops(s, argv, index, argc, hasEnd, c);
    assert r.value.index + 1 == index + c;
  }

  /** INFINITE_NUMBER_POSITIONAL refuses a partial group. */
  lemma GroupPositionalPartial(s: State, argv: seq<string>, argc: nat, index: nat, hasEnd: bool, a: Argument)
    requires Indexed(s) && index < argc <= |argv| && WellFormed(a) && a.argType == InfiniteNumberPositionalArgument
    requires hasEnd || !EndOfInfinite(s, argv[index])
    requires GroupsFrom(s, argv, index, argc, a.nargs, hasEnd).None?
    ensures GroupPositional(s, argv, argc, index, hasEnd, a) == Err(ParseError(Front(a), "bad number of argument"))
  {
  }

  /** Otherwise INFINITE_NUMBER_POSITIONAL appends whole groups of `nargs` tokens, at
      least one, which are the tokens from `index` to the cursor, and the
      list ends at `argc` or at a token the lookahead flags. */
  lemma GroupPositionalWhole(s: State, argv: seq<string>, argc: nat, index: nat, hasEnd: bool, a: Argument,
                             r: Result<Step>, g: Groups)
    requires Indexed(s) && index < argc <= |argv| && WellFormed(a) && a.argType == InfiniteNumberPositionalArgument
    requires hasEnd || !EndOfInfinite(s, argv[index])
    requires r == GroupPositional(s, argv, argc, index, hasEnd, a)
    requires GroupsFrom(s, argv, index, argc, a.nargs, hasEnd) == Some(g)
    ensures r.Ok? && r.value.arg.elems == a.elems + g.items && r.value.index + 1 == g.end
    ensures g.items != [] && Items(g.items) == argv[index..g.end]
    ensures forall k :: 0 <= k < |g.items| ==> g.items[k].Group? && |g.items[k].items| == a.nargs
    ensures g.end < argc ==> !hasEnd && EndOfInfinite(s, argv[g.end])
  {
    Properties.GroupsAreWhole(s, argv, index, argc, a.nargs, hasEnd, g);
  }


  // ---------------------------------------------------------------------
  // parseArguments: the walk over the tokens

  /** Plain tokens, once every positional declaration is present, are all
      kept as additional arguments, in order, outside strict mode. */
  lemma {:induction false} PlainTokensAreAdditional(s: State, argv: seq<string>, i: nat)
    requires Indexed(s) && EndMarkerAt(argv, |argv|) && i <= |argv|
    requires FirstOpenPositional(s.args, s.order) == |s.order| && !s.strict
    requires forall j :: i <= j < |argv| ==> !IsShortOption(argv[j]) && !IsLongOption(argv[j]) && !IsEndOption(argv[j])
    ensures WalkFrom(s, argv, |argv|, i) == Ok(s.(additional := s.additional + argv[i..]))
    decreases |argv| - i
  {
    if i < |argv| {
      WalkFromPlain(s, argv, |argv|, i);
      var s1 := s.(additional := s.additional + [argv[i]]);
      PositionalExtra(s, argv, |argv|, i, false, PositionalSpec(s, argv, |argv|, i, false));
      PlainTokensAreAdditional(s1, argv, i + 1);
      AppendShift(s.additional, argv, i);
    } else {
      WalkFromDone(s, argv, |argv|, i);
      assert s.additional + argv[i..] == s.additional;
    }
  }

  /** The walk takes a token that is neither an option nor `--` as a
      positional value. */
  lemma WalkFromPlain(s: State, argv: seq<string>, e: nat, i: nat)
    requires Indexed(s) && EndMarkerAt(argv, e) && i < e
    requires !IsShortOption(argv[i]) && !IsLongOption(argv[i]) && !IsEndOption(argv[i])
    ensures !EndOfInfinite(s, argv[i])
    ensures PositionalSpec(s, argv, e, i, false).Err? ==>
              WalkFrom(s, argv, e, i) == Err(PositionalSpec(s, argv, e, i, false).error)
    ensures PositionalSpec(s, argv, e, i, false).Ok? ==>
              WalkFrom(s, argv, e, i) ==
                WalkFrom(PositionalSpec(s, argv, e, i, false).value.0, argv, e, PositionalSpec(s, argv, e, i, false).value.1 + 1)
  {
    WalkFromToken(s, argv, e, i);
    assert TokenSpec(s, argv, e, i) == PositionalSpec(s, argv, e, i, false);
  }

  /** In strict mode a plain token with no positional declaration left to
      fill ends the parse with "invalid additional argument". */
  lemma StrictRejectsExtra(s: State, argv: seq<string>, e: nat, i: nat)
    requires Indexed(s) && EndMarkerAt(argv, e) && i < e
    requires !IsShortOption(argv[i]) && !IsLongOption(argv[i]) && !IsEndOption(argv[i])
    requires FirstOpenPositional(s.args, s.order) == |s.order| && s.strict
    ensures WalkFrom(s, argv, e, i) == Err(ParseError(argv[i], "invalid additional argument"))
  {
    WalkFromPlain(s, argv, e, i);
  }

  /** After `--`, with every positional declaration present, all the
      remaining tokens are additional arguments, options or not. */
  lemma {:induction false} AfterEndAllAdditional(s: State, argv: seq<string>, i: nat)
    requires Indexed(s) && i < |argv|
    requires FirstOpenPositional(s.args, s.order) == |s.order| && !s.strict
    ensures AfterEnd(s, argv, i) == Ok(s.(additional := s.additional + argv[i + 1..]))
    decreases |argv| - i
  {
    if i + 1 < |argv| {
      var j: nat := i + 1;
      AfterEndToken(s, argv, j);
      assert j - 1 == i;
      var s1 := s.(additional := s.additional + [argv[j]]);
      PositionalExtra(s, argv, |argv|, j, true, PositionalSpec(s, argv, |argv|, j, true));
      AfterEndAllAdditional(s1, argv, j);
      AppendShift(s.additional, argv, j);
    } else {
      AfterEndDone(s, argv, i);
      assert s.additional + argv[i + 1..] == s.additional;
    }
  }

  // ---------------------------------------------------------------------
  // parseArguments: the required check

  /** The required check reports the first required declaration in list
      order that is missing, with "argument is required" for a
      POSITIONAL_ARGUMENT and "option is required" for every other kind
      (the numbered and variadic positionals included). */
  lemma RequiredReportsFirstMissing(args: seq<Argument>, order: seq<nat>, j: nat, r: Result<seq<Argument>>)
    requires HandlesBelow(order, |args|) && forall d :: 0 <= d < |args| ==> WellFormed(args[d])
    requires j == FirstMissing(args, order) && r == RequiredCheck(args, order)
    ensures r.Err? <==> j < |order|
    ensures r.Err? ==> r.error == RequiredError(Front(args[order[j]]), if args[order[j]].argType == PositionalArgument
                                                                    then "argument is required" else "option is required")
    ensures r.Err? ==> forall i :: 0 <= i < j ==> !args[order[i]].isRequired || args[order[i]].isExist
  {
  }

  /** With every declaration in the list, the required check passes
      exactly when every required declaration is present. */
  lemma RequiredCheckCoversAll(s: State)
    requires Indexed(s) && ListOrder(s)
    ensures RequiredCheck(s.args, s.order).Ok? <==>
              forall d :: 0 <= d < |s.args| && s.args[d].isRequired ==> s.args[d].isExist
  {
    ListOrderPermutes(s);
    if RequiredCheck(s.args, s.order).Ok? {
      forall d | 0 <= d < |s.args| && s.args[d].isRequired
        ensures s.args[d].isExist
      {
        assert d in s.order;
        var j :| 0 <= j < |s.order| && s.order[j] == d;
      }
    }
  }

  // ---------------------------------------------------------------------
  // parseArguments: the validator pass

  /** Place in the list of the first declaration whose check fails, or
      `|order|`. */
  function FirstInvalid(h: Helpers, args: seq<Argument>, order: seq<nat>): (r: nat)
    requires HandlesBelow(order, |args|) && forall d :: 0 <= d < |args| ==> WellFormed(args[d])
    ensures r <= |order|
    ensures r < |order| ==> ValidateOne(h, args[order[r]]).Err?
    ensures forall i :: 0 <= i < r ==> ValidateOne(h, args[order[i]]).Ok?
    decreases |order|
  {
    if |order| == 0 then 0
    else if ValidateOne(h, args[order[0]]).Err? then 0
    else 1 + FirstInvalid(h, args, order[1..])
  }

  /** FirstInvalid only looks at the declarations the list holds. */
  lemma {:induction false} FirstInvalidListed(h: Helpers, a1: seq<Argument>, a2: seq<Argument>, order: seq<nat>)
    requires HandlesBelow(order, |a1|) && |a2| == |a1|
    requires forall d :: 0 <= d < |a1| ==> WellFormed(a1[d]) && WellFormed(a2[d])
    requires forall i :: 0 <= i < |order| ==> a1[order[i]] == a2[order[i]]
    ensures FirstInvalid(h, a1, order) == FirstInvalid(h, a2, order)
    decreases |order|
  {
    if |order| > 0 {
      FirstInvalidListed(h, a1, a2, order[1..]);
    }
  }

  /** The validator pass from place `k` fails exactly when the check of
      some declaration listed from `k` on fails, and then with the failure
      of the first such declaration: the ones before it are written back,
      the ones after are not looked at. */
  lemma {:induction false} ValidationFailsAtFirst(h: Helpers, args: seq<Argument>, order: seq<nat>, k: nat)
    requires k <= |order| && HandlesBelow(order, |args|) && Distinct(order)
    requires forall d :: 0 <= d < |args| ==> WellFormed(args[d])
    ensures ValidateFrom(h, args, order, k).Err? <==> k + FirstInvalid(h, args, order[k..]) < |order|
    ensures ValidateFrom(h, args, order, k).Err? ==>
              ValidateFrom(h, args, order, k).error == ValidateOne(h, args[order[k + FirstInvalid(h, args, order[k..])]]).error
    decreases |order| - k
  {
    if k < |order| {
      ValidateFromStep(h, args, order, k);
      assert order[k..][0] == order[k] && order[k..][1..] == order[k + 1..];
      if ValidateOne(h, args[order[k]]).Ok? {
        var next := args[order[k] := ValidateOne(h, args[order[k]]).value];
        ValidationFailsAtFirst(h, next, order, k + 1);
        var rest := order[k + 1..];
        forall i | 0 <= i < |rest|
          ensures next[rest[i]] == args[rest[i]]
        {
          assert rest[i] == order[k + 1 + i] != order[k];
        }
        FirstInvalidListed(h, next, args, rest);
      }
    }
  }

  /** A built-in validator (choices or bounds) never changes the values
      it accepts: on a present argument, the check passes exactly when the
      validator accepts the argument's values, and the argument is then
      left as it was. */
  lemma BuiltinValidationKeeps(h: Helpers, a: Argument)
    requires WellFormed(a) && a.isExist && a.valid.Some? && !a.valid.value.Custom?
    requires IsScalar(a.argType) || IsFlatValued(a.argType) || IsGroupValued(a.argType)
    ensures ValidateOne(h, a).Ok? <==>
              IsValid(a.valid.value, h.customValid, h.strToNumber, h.numberToStr, ValidationValues(a)) ==
                Checked(true, ValidationValues(a))
    ensures ValidateOne(h, a).Ok? ==> ValidateOne(h, a) == Ok(a)
  {
    BuiltinsKeepArguments(a.valid.value, h.customValid, h.strToNumber, h.numberToStr, ValidationValues(a));
    WriteBackOwnValues(a);
  }

  /** The values a check returns are written back: reading the argument's
      values again gives exactly them. */
  lemma ValidatedValuesReadBack(h: Helpers, a: Argument, vals: seq<string>)
    requires WellFormed(a) && a.isExist && a.valid.Some?
    requires IsScalar(a.argType) || IsFlatValued(a.argType) || IsGroupValued(a.argType)
    requires IsFlatValued(a.argType) ==> forall i :: 0 <= i < |a.elems| ==> a.elems[i].Leaf?
    requires IsValid(a.valid.value, h.customValid, h.strToNumber, h.numberToStr, ValidationValues(a)) == Checked(true, vals)
    requires |vals| == |ValidationValues(a)|
    ensures ValidateOne(h, a).Ok? && ValidationValues(ValidateOne(h, a).value) == vals
  {
    var w := WriteBack(a, vals);
    WriteBackReadBack(a, vals);
    assert ValidateOne(h, a) == Ok(w.value);
  }

  /** A check that reports failure without a message of its own ends the
      parse with "invalid check function". */
  lemma CheckFalseIsInvalid(h: Helpers, a: Argument, vals: seq<string>)
    requires WellFormed(a) && a.isExist && a.valid.Some?
    requires IsValid(a.valid.value, h.customValid, h.strToNumber, h.numberToStr, ValidationValues(a)) == Checked(false, vals)
    ensures ValidateOne(h, a) == Err(ValidError(Front(a), "invalid check function"))
  {
  }

  // ---------------------------------------------------------------------
  // parseArguments: after the walk

  /** A present help flag wins over everything after the walk, even over
      missing required arguments; then a present version flag; a parse
      that ends normally has every required declaration present and every
      declaration as its own check left it. */
  lemma FinishOutcomes(h: Helpers, s: State, r: Result<(Outcome, State)>)
    requires Indexed(s) && ListOrder(s) && r == FinishSpec(h, s)
    ensures ActionSeen(s.args, HelpAction) ==> r == Ok((HelpRequested, s))
    ensures !ActionSeen(s.args, HelpAction) && ActionSeen(s.args, VersionAction) ==> r == Ok((VersionRequested, s))
    ensures r.Err? ==> r.error.RequiredError? || r.error.ValidError?
    ensures r.Ok? && r.value.0 == Parsed ==>
              && |r.value.1.args| == |s.args|
              && (forall k :: 0 <= k < |s.args| ==> ValidateOne(h, s.args[k]) == Ok(r.value.1.args[k]))
              && (forall k :: 0 <= k < |s.args| && s.args[k].isRequired ==> r.value.1.args[k].isExist)
  {
    ListOrderPermutes(s);
    if !ActionSeen(s.args, HelpAction) && !ActionSeen(s.args, VersionAction) && RequiredCheck(s.args, s.order).Ok? {
      if ValidateFrom(h, s.args, s.order, 0).Ok? {
        RequiredCheckCoversAll(s);
        ValidatedEverywhere(h, s);
      }
    }
  }

  /** A validator pass that succeeds over a list holding every declaration
      leaves each declaration as its own check returns it. */
  lemma ValidatedEverywhere(h: Helpers, s: State)
    requires Indexed(s) && ListOrder(s) && ValidateFrom(h, s.args, s.order, 0).Ok?
    ensures forall k :: 0 <= k < |s.args| ==> ValidateOne(h, s.args[k]) == Ok(ValidateFrom(h, s.args, s.order, 0).value[k])
  {
    ListOrderPermutes(s);
    ValidatedOneByOne(h, s.args, s.order, 0);
    var v := ValidateFrom(h, s.args, s.order, 0).value;
    forall k | 0 <= k < |s.args|
      ensures ValidateOne(h, s.args[k]) == Ok(v[k])
    {
      assert k in s.order;
      var j :| 0 <= j < |s.order| && s.order[j] == k;
    }
  }
}
