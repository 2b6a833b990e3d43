/**
  Properties of the option side of the parser, relating several of its
  routines or one routine to what the library promises of it: what
  `addArgument` checks, how an option consumes its values, where a variadic
  list stops, and how a short cluster counts its flags.
 */
module Properties {
  import opened Exceptions
  import opened Tokens
  import opened Validators
  import opened Arguments
  import opened Engine
  import opened Registry

  // ---------------------------------------------------------------------
  // addArgument

  lemma {:induction false} FlagsCheckPasses(h: Helpers, names: map<string, nat>, list: seq<string>, i: nat)
    requires |list| > 0 && list[0] !in names
    requires forall j :: 0 <= j < |list| ==> h.validFormatFlag(list[j]).None?
    ensures FlagsCheck(h, names, list, i) == None
    decreases |list| - i
  {
    if i < |list| {
      FlagsCheckPasses(h, names, list, i + 1);
    }
  }

  /** Only the first flag of a list is checked against the registered
      names: a list of well-formed flags whose first one is free is
      accepted even when later ones are taken, and those keep designating
      the declaration they designated; a taken first flag is refused. */
  lemma FlagListChecksFront(h: Helpers, names: map<string, nat>, list: seq<string>, v: nat)
    requires |list| >= 2
    requires forall j :: 0 <= j < |list| ==> h.validFormatFlag(list[j]).None?
    ensures list[0] in names ==> NewDeclaration(h, names, list) == Err(ArgumentError(list[0], "invalid flag already exist"))
    ensures list[0] !in names ==> NewDeclaration(h, names, list).Ok?
    ensures list[0] !in names ==>
              forall f :: f in names ==>
                f in InsertAbsent(names, NewDeclaration(h, names, list).value.nameOrFlags, v) &&
                InsertAbsent(names, NewDeclaration(h, names, list).value.nameOrFlags, v)[f] == names[f]
  {
    if list[0] !in names {
      FlagsCheckPasses(h, names, list, 0);
      InsertAbsentMaps(names, NewDeclaration(h, names, list).value.nameOrFlags, v);
    }
  }

  // ---------------------------------------------------------------------
  // _parseLongArgument

  /** `_parseLongArgument` throws "invalid option", naming the option
      without its dashes, exactly when the option is not registered; a
      registered one is marked present and counted once more. */
  lemma LongOptionLookup(s: State, argv: seq<string>, max: nat, index: nat, sp: Split, r: Result<(State, nat)>)
    requires Indexed(s) && index < max <= |argv| && IsLongOption(argv[index])
    requires sp == TakeArg(argv[index]) && r == LongSpec(s, argv, max, index)
    ensures |sp.option| >= 2
    ensures r == Err(ParseError(sp.option[2..], "invalid option")) <==> sp.option !in s.names
    ensures r.Err? ==> r.error.ParseError? && r.error.name == sp.option[2..]
    ensures r.Ok? ==> sp.option in s.names && r.value.0.args[s.names[sp.option]].isExist
    ensures r.Ok? ==> r.value.0.args[s.names[sp.option]].count == s.args[s.names[sp.option]].count + 1
  {
    LongOptionPart(argv[index]);
    if sp.option in s.names {
      var h := s.names[sp.option];
      var spec := ParseArgumentSpec(s, argv, max, index, sp.hasArg, sp.option[2..], sp.arg, s.args[h]);
      if spec.Err? {
        assert spec.error.message != "invalid option" by {
          if sp.hasArg {
            assert spec == InlineValue(sp.option[2..], sp.arg, s.args[h]).PropagateFailure();
          }
        }
      }
    }
  }

  // ---------------------------------------------------------------------
  // _parseArgument

  /** An inline value never moves the cursor. SIMPLE keeps it, INFINITE
      holds exactly it, MULTI and MULTI_INFINITE add it after the values
      they keep; the classes that need several values refuse it, and the
      others take no value at all. */
  lemma InlineValueCases(s: State, argv: seq<string>, max: nat, index: nat, option: string, arg: string,
                         a: Argument, r: Result<Step>)
    requires Indexed(s) && WellFormed(a) && index < max <= |argv|
    requires r == ParseArgumentSpec(s, argv, max, index, true, option, arg, a)
    ensures r.Ok? <==> a.argType in {SimpleOption, InfiniteOption, MultiOption, MultiInfiniteOption}
    ensures r.Ok? ==> r.value.index == index && r.value.arg.isExist && r.value.arg.count == a.count + 1
    ensures a.argType == SimpleOption ==> r.value.arg.argument == arg && r.value.arg.elems == a.elems
    ensures a.argType == InfiniteOption ==> r.value.arg.elems == [Leaf(arg)]
    ensures a.argType in {MultiOption, MultiInfiniteOption} ==>
              r.value.arg.elems == (if a.isExist then a.elems else []) + [Leaf(arg)]
    ensures a.argType in {NumberOption, MultiNumberOption, MultiNumberInfiniteOption} ==>
              r == Err(ParseError(option, "option cannot use with only 1 argument"))
    ensures r.Err? && !(a.argType in {NumberOption, MultiNumberOption, MultiNumberInfiniteOption}) ==>
              r == Err(ParseError(option, "option cannot use with argument"))
  {
  }

  /** Without an inline value, SIMPLE and MULTI take the next token and
      NUMBER and MULTI_NUMBER the next `nargs`, all before `max`; the
      cursor moves past exactly those tokens. Too few is an exception. */
  lemma FixedCountConsumes(s: State, argv: seq<string>, max: nat, index: nat, option: string, arg: string,
                           a: Argument, r: Result<Step>)
    requires Indexed(s) && WellFormed(a) && index < max <= |argv|
    requires a.argType in {SimpleOption, NumberOption, MultiOption, MultiNumberOption}
    requires r == ParseArgumentSpec(s, argv, max, index, false, option, arg, a)
    ensures r.Ok? <==> index + FixedCount(a) < max
    ensures r.Err? ==> r.error == ParseError(option, "bad number of argument")
    ensures r.Ok? ==> r.value.index == index + FixedCount(a) && r.value.arg.isExist && r.value.arg.count == a.count + 1
    ensures r.Ok? && a.argType == SimpleOption ==> r.value.arg.argument == argv[index + 1]
    ensures r.Ok? && a.argType == NumberOption ==> r.value.arg.elems == Leaves(argv[index + 1..index + 1 + a.nargs])
    ensures r.Ok? && a.argType == MultiOption ==> r.value.arg.elems == Kept(a) + [Leaf(argv[index + 1])]
    ensures r.Ok? && a.argType == MultiNumberOption ==>
              r.value.arg.elems == Kept(a) + [Group(argv[index + 1..index + 1 + a.nargs])]
  {
    NextIsFixed(s, argv, max, index, option, a);
    FixedValuesCases(argv, max, index, option, a);
    SpecOfNext(s, argv, max, index, option, arg, a);
    FixedOutcome(argv, max, index, option, a, NextValues(s, argv, max, index, option, a), r);
  }

  /** The outcome of a fixed-count class, from the two unfoldings of
      `ParseArgumentSpec` and `FixedValues`. */
  lemma FixedOutcome(argv: seq<string>, max: nat, index: nat, option: string, a: Argument,
                     next: Result<Step>, r: Result<Step>)
    requires index < max <= |argv|
    requires a.argType in {SimpleOption, NumberOption, MultiOption, MultiNumberOption}
    requires next == if index + FixedCount(a) < max then
                       Ok(Step(FixedFill(a, argv[index + 1..index + 1 + FixedCount(a)]), index + FixedCount(a)))
                     else Err(ParseError(option, "bad number of argument"))
    requires r == if next.Ok? then Ok(Step(next.value.arg.(isExist := true, count := a.count + 1), next.value.index))
                  else Err(next.error)
    ensures r.Ok? <==> index + FixedCount(a) < max
    ensures r.Err? ==> r.error == ParseError(option, "bad number of argument")
    ensures r.Ok? ==> r.value.index == index + FixedCount(a) && r.value.arg.isExist && r.value.arg.count == a.count + 1
    ensures r.Ok? && a.argType == SimpleOption ==> r.value.arg.argument == argv[index + 1]
    ensures r.Ok? && a.argType == NumberOption ==> r.value.arg.elems == Leaves(argv[index + 1..index + 1 + a.nargs])
    ensures r.Ok? && a.argType == MultiOption ==> r.value.arg.elems == Kept(a) + [Leaf(argv[index + 1])]
    ensures r.Ok? && a.argType == MultiNumberOption ==>
              r.value.arg.elems == Kept(a) + [Group(argv[index + 1..index + 1 + a.nargs])]
  {
    if r.Ok? && FixedCount(a) == 1 {
      assert argv[index + 1..index + 2][0] == argv[index + 1];
    }
  }

  /** INFINITE and MULTI_INFINITE without an inline value take the tokens
      after the option one by one, stop at the first token the lookahead
      flags (or at `max`), and move the cursor past what they took. */
  lemma VariadicStopsAtLookahead(s: State, argv: seq<string>, max: nat, index: nat, a: Argument, r: Result<Step>)
    requires Indexed(s) && index < max <= |argv|
    requires a.argType == InfiniteOption || a.argType == MultiInfiniteOption
    requires r == VariadicValues(s, argv, max, index, a)
    ensures r.Ok? && index <= r.value.index < max
    ensures forall j :: index < j <= r.value.index ==> !EndOfInfinite(s, argv[j])
    ensures r.value.index + 1 < max ==> EndOfInfinite(s, argv[r.value.index + 1])
    ensures a.argType == InfiniteOption ==> r.value.arg.elems == Leaves(argv[index + 1..r.value.index + 1])
    ensures a.argType == MultiInfiniteOption ==> r.value.arg.elems == Kept(a) + Leaves(argv[index + 1..r.value.index + 1])
  {
    var k := TakeCount(s, argv, index + 1, max, false);
    TakeCountTakes(s, argv, index + 1, max, false, k);
    TakeCountStops(s, argv, index + 1, max, false, k);
    assert r.value.index == index + k;
  }

  /** A variadic list of groups is made of whole groups of `n` tokens
      which, one after the other, are the tokens from `i` to where it
      ended; it ends at `max` or at a token the lookahead flags. */
  lemma {:induction false} GroupsAreWhole(s: State, argv: seq<string>, i: nat, max: nat, n: nat, hasEnd: bool, g: Groups)
    requires Indexed(s) && max <= |argv| && n >= 1 && i <= max
    requires GroupsFrom(s, argv, i, max, n, hasEnd) == Some(g)
    ensures i <= g.end <= max && Items(g.items) == argv[i..g.end]
    ensures forall k :: 0 <= k < |g.items| ==> g.items[k].Group? && |g.items[k].items| == n
    ensures g.end < max ==> !hasEnd && EndOfInfinite(s, argv[g.end])
    decreases max - i
  {
    if i == max || (!hasEnd && EndOfInfinite(s, argv[i])) {
      assert g == Groups([], i);
      if i < max {
        assert argv[g.end] == argv[i];
      }
    } else {
      assert i + n <= max;
      var rest := GroupsFrom(s, argv, i + n, max, n, hasEnd).value;
      assert g == Groups([Group(argv[i..i + n])] + rest.items, rest.end);
      GroupsAreWhole(s, argv, i + n, max, n, hasEnd, rest);
      assert g.end == rest.end;
      var first := Group(argv[i..i + n]);
      assert Children(first) == argv[i..i + n];
      ItemsOfFront(first, rest.items);
      SliceSplit(argv, i, i + n, rest.end);
      forall k | 0 <= k < |g.items|
        ensures g.items[k].Group? && |g.items[k].items| == n
      {
        if k > 0 {
          assert g.items[k] == rest.items[k - 1];
        }
      }
    }
  }

  lemma SliceSplit(a: seq<string>, lo: nat, mid: nat, hi: nat)
    requires lo <= mid <= hi <= |a|
    ensures a[lo..hi] == a[lo..mid] + a[mid..hi]
  {
  }

  // ---------------------------------------------------------------------
  // _endOfInfiniteArgument

  /** A lone short flag `-x` ends a variadic list exactly when `-x` is
      registered, or, in alternative mode, `--x`. */
  lemma LookaheadSingleFlag(s: State, t: string)
    requires Indexed(s) && IsShortOption(t) && |t| == 2 && t[1] != '='
    ensures EndOfInfinite(s, t) <==> ShortKey(t[1]) in s.names || (s.alternative && "-" + t in s.names)
  {
    assert TakeArg(t).option == t;
    assert ShortKey(t[1]) == t;
  }

  /** A short token whose first flag is not registered never ends a
      variadic list (unless it is a long flag in alternative mode). */
  lemma LookaheadUnknownCluster(s: State, t: string)
    requires Indexed(s) && IsShortOption(t) && '=' !in t
    requires !(s.alternative && "-" + t in s.names) && ShortKey(t[1]) !in s.names
    ensures !EndOfInfinite(s, t)
  {
    assert TakeArg(t).option == t;
  }

  // ---------------------------------------------------------------------
  // _parseShortArgument

  /** How many of the characters `i` to `end - 1` of a cluster designate
      the declaration `k`. */
  function Hits(names: map<string, nat>, opt: string, i: nat, end: nat, k: nat): nat
    requires end <= |opt|
    decreases end - i
  {
    if i >= end then 0
    else (if ShortKey(opt[i]) in names && names[ShortKey(opt[i])] == k then 1 else 0) + Hits(names, opt, i + 1, end, k)
  }

  lemma {:induction false} HitsSnoc(names: map<string, nat>, opt: string, i: nat, end: nat, k: nat)
    requires i <= end < |opt|
    ensures Hits(names, opt, i, end + 1, k) ==
              Hits(names, opt, i, end, k) + (if ShortKey(opt[end]) in names && names[ShortKey(opt[end])] == k then 1 else 0)
    decreases end - i
  {
    if i < end {
      HitsSnoc(names, opt, i + 1, end, k);
    }
  }

  /** The state after marking present and counting the declaration of
      each of the characters `i` to `end - 1` of a cluster, in order. */
  function BumpRun(s: State, opt: string, i: nat, end: nat): (r: State)
    requires Indexed(s) && end <= |opt|
    ensures |r.args| == |s.args| && r.names == s.names
    decreases end - i
  {
    if i >= end then s
    else if ShortKey(opt[i]) !in s.names then BumpRun(s, opt, i + 1, end)
    else BumpRun(Bump(s, s.names[ShortKey(opt[i])]), opt, i + 1, end)
  }

  /** Counting a run of characters marks each declaration present exactly
      when one of them designates it, and adds one to its count per
      occurrence. */
  lemma {:induction false} BumpRunCounts(s: State, opt: string, i: nat, end: nat, k: nat)
    requires Indexed(s) && end <= |opt| && k < |s.args|
    ensures BumpRun(s, opt, i, end).args[k] ==
              s.args[k].(isExist := s.args[k].isExist || Hits(s.names, opt, i, end, k) > 0,
                         count := s.args[k].count + Hits(s.names, opt, i, end, k))
    decreases end - i
  {
    if i < end && ShortKey(opt[i]) in s.names {
      BumpRunCounts(Bump(s, s.names[ShortKey(opt[i])]), opt, i + 1, end, k);
    } else if i < end {
      BumpRunCounts(s, opt, i + 1, end, k);
    }
  }

  lemma {:induction false} BumpRunSnoc(s: State, opt: string, i: nat, end: nat)
    requires Indexed(s) && i <= end < |opt| && ShortKey(opt[end]) in s.names
    ensures BumpRun(s, opt, i, end + 1) == Bump(BumpRun(s, opt, i, end), s.names[ShortKey(opt[end])])
    decreases end - i
  {
    if i < end {
      if ShortKey(opt[i]) in s.names {
        BumpRunSnoc(Bump(s, s.names[ShortKey(opt[i])]), opt, i + 1, end);
      } else {
        BumpRunSnoc(s, opt, i + 1, end);
      }
    }
  }

  /** A cluster loop over registered boolean flags only reaches the last
      character, and counts each of them on the way. */
  lemma ScanAllBooleans(s: State, sp: Split, r: (State, ClusterStop))
    requires Indexed(s) && r == ClusterScan(s, sp, 1) && |sp.option| >= 2
    requires forall j :: 1 <= j < |sp.option| - 1 ==>
               ShortKey(sp.option[j]) in s.names && IsBoolean(KindOf(s, ShortKey(sp.option[j])))
    ensures r == (BumpRun(s, sp.option, 1, |sp.option| - 1), AtLast)
  {
    var cur, i := s, 1;
    while i < |sp.option| - 1
      invariant 1 <= i <= |sp.option| - 1
      invariant Indexed(cur) && SameDeclarations(s, cur)
      invariant ClusterScan(cur, sp, i) == r
      invariant BumpRun(cur, sp.option, i, |sp.option| - 1) == BumpRun(s, sp.option, 1, |sp.option| - 1)
      decreases |sp.option| - i
    {
      var h := cur.names[ShortKey(sp.option[i])];
      assert SameDeclaration(s.args[h], cur.args[h]);
      ClusterScanBoolean(cur, sp, i);
      var b := Bump(cur, h);
      SameDeclarationsTransitive(s, cur, b);
      cur, i := b, i + 1;
    }
  }

  /** Without an alternative long name matching, a short option token is
      parsed as a cluster. */
  lemma ShortIsCluster(s: State, argv: seq<string>, max: nat, index: nat)
    requires Indexed(s) && index < max <= |argv| && IsShortOption(argv[index])
    requires !(s.alternative && "-" + TakeArg(argv[index]).option in s.names)
    ensures ShortSpec(s, argv, max, index) == ClusterSpec(s, argv, max, index, TakeArg(argv[index]))
  {
    ShortOptionPart(argv[index]);
  }

  /** A boolean flag as the last character of a cluster without inline
      value is counted and marked present; the cursor stays on the token. */
  lemma LastBooleanCounted(s: State, argv: seq<string>, max: nat, index: nat, sp: Split)
    requires Indexed(s) && index < max <= |argv| && |sp.option| >= 1 && !sp.hasArg
    requires ShortKey(sp.option[|sp.option| - 1]) in s.names
    requires IsBoolean(KindOf(s, ShortKey(sp.option[|sp.option| - 1])))
    ensures LastSpec(s, argv, max, index, sp) == Ok((Bump(s, s.names[ShortKey(sp.option[|sp.option| - 1])]), index))
  {
  }

  /** A cluster of boolean flags without inline value, such as `-abc`,
      is the run of its flags, as the separate tokens `-a -b -c` would be,
      and leaves the cursor on the token (`BumpRunCounts` gives the
      counts). */
  lemma BooleanClusterIsRun(s: State, argv: seq<string>, max: nat, index: nat, r: Result<(State, nat)>)
    requires Indexed(s) && index < max <= |argv| && IsShortOption(argv[index]) && '=' !in argv[index]
    requires !(s.alternative && "-" + argv[index] in s.names)
    requires forall j :: 1 <= j < |argv[index]| ==>
               ShortKey(argv[index][j]) in s.names && IsBoolean(KindOf(s, ShortKey(argv[index][j])))
    requires r == ShortSpec(s, argv, max, index)
    ensures r == Ok((BumpRun(s, argv[index], 1, |argv[index]|), index))
  {
    var t := argv[index];
    var sp := TakeArg(t);
    assert sp == Split(t, "", false);
    ShortIsCluster(s, argv, max, index);
    var scan := ClusterScan(s, sp, 1);
    ScanAllBooleans(s, sp, scan);
    var last := |t| - 1;
    var s1 := scan.0;
    var h := s1.names[ShortKey(t[last])];
    assert SameDeclaration(s.args[h], s1.args[h]);
    LastBooleanCounted(s1, argv, max, index, sp);
    assert r == LastSpec(s1, argv, max, index, sp);
    BumpRunSnoc(s, t, 1, last);
  }

  /** A value-taking flag in the middle of a cluster takes the rest of the
      token as its inline value, and is counted twice: by the cluster loop
      and again by `_parseArgument`. */
  lemma MidClusterCountedTwice(s: State, argv: seq<string>, max: nat, index: nat, sp: Split, i: nat, r: Result<(State, nat)>)
    requires Indexed(s) && index < max <= |argv| && i < |sp.option| && ShortKey(sp.option[i]) in s.names
    requires r == RestSpec(s, argv, max, index, sp, i) && r.Ok?
    ensures r.value.1 == index
    ensures r.value.0.args[s.names[ShortKey(sp.option[i])]].count == s.args[s.names[ShortKey(sp.option[i])]].count + 2
    ensures KindOf(s, ShortKey(sp.option[i])) == SimpleOption ==>
              r.value.0.args[s.names[ShortKey(sp.option[i])]].argument == sp.option[i + 1..]
  {
  }

  /** MULTI_NUMBER_INFINITE is not among the flags that may take the rest
      of a cluster: in the middle of one it is refused like any other
      flag that takes a value. */
  lemma MidClusterMultiNumberInfinite(s: State, sp: Split, i: nat)
    requires Indexed(s) && 1 <= i < |sp.option| - 1 && !sp.hasArg
    requires ShortKey(sp.option[i]) in s.names && KindOf(s, ShortKey(sp.option[i])) == MultiNumberInfiniteOption
    ensures ClusterScan(s, sp, i).1 == Failed(ParseError([sp.option[i]], "only last option can be use a parameter"))
  {
  }
}
