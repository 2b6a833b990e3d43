/**
  The parser object `Argparsor`: the declaration registry, its mode flags
  and accessors, `addArgument` and `flag`, and the parse routines, each
  proved to do what the corresponding function of `Engine` describes.
  Declarations are designated by their position in the list (the handle an
  `Argument&` stands for).
 */
module Registry {
  import opened Exceptions
  import opened Tokens
  import opened Validators
  import opened Arguments
  import opened Engine

  /** The exception `addArgument`'s flag loop throws, if any, from flag `i`:
      each flag is checked for format, and after each one the first flag
      (only the first) is checked against the registered names. */
  function FlagsCheck(h: Helpers, names: map<string, nat>, list: seq<string>, i: nat): (r: Option<Failure>)
    requires |list| > 0
    decreases |list| - i
  {
    if i >= |list| then None
    else if h.validFormatFlag(list[i]).Some? then h.validFormatFlag(list[i])
    else if list[0] in names then Some(ArgumentError(list[0], "invalid flag already exist"))
    else FlagsCheck(h, names, list, i + 1)
  }

  /** Whether `addArgument` reads its list as a positional name: a single
      entry that does not start with `-` (an empty entry included). */
  predicate IsNameList(list: seq<string>) {
    |list| == 1 && (list[0] == "" || list[0][0] != '-')
  }

  /** The declaration `addArgument(list)` creates, or the exception it throws. */
  function NewDeclaration(h: Helpers, names: map<string, nat>, list: seq<string>): (r: Result<Argument>)
    ensures |list| == 0 ==> r == Err(ArgumentError("", "invalid empty flag"))
    ensures r.Ok? && IsNameList(list) ==> r.value.nameOrFlags == list && r.value.argType == PositionalArgument && r.value.nargs == 1
    ensures r.Ok? && !IsNameList(list) ==> r.value.nameOrFlags == h.sortNameOrFlags(list) && r.value.argType == NoType
    ensures r.Ok? ==> !r.value.isExist && r.value.count == 0 && !r.value.isRequired && r.value.valid == None
  {
    if |list| == 0 then Err(ArgumentError("", "invalid empty flag"))
    else if IsNameList(list) then
      if list[0] == "" then Err(ArgumentError("", "bad name argument"))
      else if list[0] in names then Err(ArgumentError(list[0], "bad name argument already exist"))
      else Ok(NewArgument().(nameOrFlags := [list[0]], nargs := 1, argType := PositionalArgument))
    else
      match FlagsCheck(h, names, list, 0)
      case Some(e) => Err(e)
      case None => Ok(NewArgument().(nameOrFlags := h.sortNameOrFlags(list)))
  }

  /** A declaration `addArgument` builds has at least one name, and an
      empty arity class. */
  lemma NewDeclarationWellFormed(h: Helpers, names: map<string, nat>, list: seq<string>)
    requires HelpersOk(h)
    ensures NewDeclaration(h, names, list).Ok? ==> WellFormed(NewDeclaration(h, names, list).value)
  {
    if |list| > 0 && !IsNameList(list) {
      SortKeeps(h, list, list[0]);
    }
  }

  /** `std::map::insert` of every key to `v`, in order: keys already
      present keep their old value. */
  function InsertAbsent(m: map<string, nat>, keys: seq<string>, v: nat): map<string, nat>
    decreases |keys|
  {
    if |keys| == 0 then m
    else InsertAbsent(if keys[0] in m then m else m[keys[0] := v], keys[1..], v)
  }

  /** The keys inserted are added, the keys present keep their value, and
      the new keys map to `v`. */
  lemma {:induction false} InsertAbsentMaps(m: map<string, nat>, keys: seq<string>, v: nat)
    ensures InsertAbsent(m, keys, v).Keys == m.Keys + set k | k in keys
    ensures forall k :: k in m ==> InsertAbsent(m, keys, v)[k] == m[k]
    ensures forall k :: k in keys && k !in m ==> InsertAbsent(m, keys, v)[k] == v
    decreases |keys|
  {
    if |keys| > 0 {
      var m1 := if keys[0] in m then m else m[keys[0] := v];
      InsertAbsentMaps(m1, keys[1..], v);
      assert forall k :: k in keys <==> k == keys[0] || k in keys[1..];
    }
  }

  /** The loop of `addArgument` that maps the names. */
  method InsertNames(m: map<string, nat>, keys: seq<string>, v: nat) returns (r: map<string, nat>)
    ensures r == InsertAbsent(m, keys, v)
  {
    r := m;
    var i := 0;
    while i < |keys|
      invariant 0 <= i <= |keys|
      invariant InsertAbsent(r, keys[i..], v) == InsertAbsent(m, keys, v)
    {
      assert keys[i..][1..] == keys[i + 1..];
      if keys[i] !in r {
        r := r[keys[i] := v];
      }
      i := i + 1;
    }
  }

  /** Sorting the names keeps every one of them. */
  lemma SortKeeps(h: Helpers, list: seq<string>, n: string)
    requires HelpersOk(h)
    ensures n in h.sortNameOrFlags(list) <==> n in list
    ensures |h.sortNameOrFlags(list)| == |list|
  {
    assert multiset(h.sortNameOrFlags(list)) == multiset(list);
    assert n in h.sortNameOrFlags(list) <==> n in multiset(h.sortNameOrFlags(list));
    assert |multiset(list)| == |list|;
  }

  /** The list that holds every declaration once keeps every handle
      below the number of declarations. */
  lemma ListOrderBelow(s: State)
    requires ListOrder(s)
    ensures HandlesBelow(s.order, |s.args|)
  {
    forall j | 0 <= j < |s.order|
      ensures s.order[j] < |s.args|
    {
      assert s.order[j] in multiset(s.order);
      HandlesOnce(|s.args|, s.order[j]);
    }
  }

  /** The names resolve whatever the list order. */
  lemma ReorderKeepsNames(s: State, o: seq<nat>)
    requires NamesResolve(s) && HandlesBelow(o, |s.args|)
    ensures NamesResolve(s.(order := o))
  {
  }

  /** The registry after `addArgument` pushed `a` to the back of the list
      and mapped its free names to it. */
  function Pushed(s: State, a: Argument): State {
    s.(args := s.args + [a], order := s.order + [|s.args|], names := InsertAbsent(s.names, a.nameOrFlags, |s.args|))
  }

  /** Appending a declaration and mapping its free names to it keeps every
      name resolving to a declaration that carries it, and the list holding
      every declaration once. */
  lemma AppendResolves(s: State, a: Argument)
    requires NamesResolve(s) && ListOrder(s) && WellFormed(a)
    ensures NamesResolve(Pushed(s, a)) && ListOrder(Pushed(s, a))
  {
    var t := Pushed(s, a);
    InsertAbsentMaps(s.names, a.nameOrFlags, |s.args|);
    forall n | n in t.names
      ensures t.names[n] < |t.args| && n in t.args[t.names[n]].nameOrFlags
    {
      if n in s.names {
        assert t.args[s.names[n]] == s.args[s.names[n]];
      }
    }
    forall k, n | 0 <= k < |t.args| && n in t.args[k].nameOrFlags
      ensures n in t.names
    {
      if k < |s.args| {
        assert t.args[k] == s.args[k];
      }
    }
    forall j | 0 <= j < |t.order|
      ensures t.order[j] < |t.args|
    {
      if j < |s.order| {
        assert t.order[j] == s.order[j];
      }
    }
    var n: nat := |s.order|;
    assert t.order == s.order + [n];
    assert multiset(t.order) == multiset(s.order) + multiset{n};
  }

  /** Replacing the names of declaration `h` by `flags`, a superset of them,
      and mapping the one new name `f` if it is free, keeps every name
      resolving. */
  lemma FlagResolves(s: State, h: nat, flags: seq<string>, f: string)
    requires NamesResolve(s) && ListOrder(s) && h < |s.args|
    requires multiset(flags) == multiset(s.args[h].nameOrFlags + [f])
    ensures NamesResolve(s.(args := s.args[h := s.args[h].(nameOrFlags := flags)],
                            names := InsertAbsent(s.names, [f], h)))
    ensures ListOrder(s.(args := s.args[h := s.args[h].(nameOrFlags := flags)],
                         names := InsertAbsent(s.names, [f], h)))
  {
    forall n
      ensures n in flags <==> n in s.args[h].nameOrFlags || n == f
    {
      assert n in flags <==> n in multiset(flags);
      assert n in s.args[h].nameOrFlags + [f] <==> n in multiset(s.args[h].nameOrFlags + [f]);
    }
    var t := s.(args := s.args[h := s.args[h].(nameOrFlags := flags)], names := InsertAbsent(s.names, [f], h));
    InsertAbsentMaps(s.names, [f], h);
    assert f in flags;
    assert |flags| > 0;
    assert WellFormed(t.args[h]);
    forall n | n in t.names
      ensures t.names[n] < |t.args| && n in t.args[t.names[n]].nameOrFlags
    {
      if n in s.names {
        assert n in s.args[s.names[n]].nameOrFlags;
      }
    }
    forall k, n | 0 <= k < |t.args| && n in t.args[k].nameOrFlags
      ensures n in t.names
    {
      if k != h {
        assert t.args[k] == s.args[k];
      }
    }
  }

  /** `addArgument("-h")` on the empty registry declares `-h` alone, at
      handle 0 and first in the list. */
  lemma HelpAdded(h: Helpers, d: Argument, args: seq<Argument>)
    requires HelpersOk(h) && NewDeclaration(h, map[], ["-h"]) == Ok(d)
    ensures d.nameOrFlags == ["-h"] && InsertAbsent(map[], d.nameOrFlags, 0) == map["-h" := 0]
    ensures h.sortOrder(args, [] + [0]) == [0]
  {
    SingleItemSorted(h.sortNameOrFlags(["-h"]), "-h");
    assert [] + [0] == [0];
    SingleItemSorted(h.sortOrder(args, [0]), 0);
    InsertOne(map[], "-h", 0);
  }

  /** `flag("--help")` on that declaration keeps it first in the list and
      adds the name `--help` for it. */
  lemma HelpFlagged(h: Helpers, args: seq<Argument>)
    requires HelpersOk(h)
    ensures h.sortOrder(args, [0]) == [0]
    ensures InsertAbsent(map["-h" := 0], ["--help"], 0) == map["-h" := 0, "--help" := 0]
  {
    SingleItemSorted(h.sortOrder(args, [0]), 0);
    InsertOne(map["-h" := 0], "--help", 0);
  }

  /** Inserting one key. */
  lemma InsertOne(m: map<string, nat>, k: string, v: nat)
    ensures InsertAbsent(m, [k], v) == if k in m then m else m[k := v]
  {
    assert [k][1..] == [];
  }

  /** A reordering of a one-item list is that list. */
  lemma SingleItemSorted<T>(x: seq<T>, a: T)
    requires multiset(x) == multiset([a])
    ensures x == [a]
  {
    assert |x| == |multiset(x)| == 1;
    assert x[0] in multiset(x);
  }

  /** The declaration `Argparsor(true)` defines from the one `addArgument("-h")`
      builds: the `--help` flag added, the HELP action and its help text. */
  function HelpDeclaration(h: Helpers, a: Argument): (r: Argument)
    requires HelpersOk(h)
    ensures r.action == HelpAction && r.help == "show this help message and exit"
  {
    var flagged := a.(nameOrFlags := h.sortNameOrFlags(a.nameOrFlags + ["--help"]));
    ApplySetter(h, ApplySetter(h, flagged, SetAction(HelpAction)), SetHelp("show this help message and exit"))
  }

  /** `Argument::flag`'s check, and the exception it throws. */
  function FlagError(h: Helpers, names: map<string, nat>, a: Argument, f: string): Option<Failure> {
    if a.argType == PositionalArgument then Some(ArgumentError(f, "can't add flag in positionnal argument"))
    else h.validFlag(names.Keys, f)
  }

  /** The flat write-back loop of the validator pass. */
  method WriteTextsLoop(es: seq<Elem>, vals: seq<string>) returns (out: seq<Elem>)
    ensures out == WriteTexts(es, vals)
  {
    out := es;
    var i := 0;
    while i < |out| && i < |vals|
      invariant 0 <= i <= |es| && i <= |vals| && |out| == |es|
      invariant forall m :: 0 <= m < i ==> out[m] == SetText(es[m], vals[m])
      invariant forall m :: i <= m < |es| ==> out[m] == es[m]
    {
      out := out[i := SetText(out[i], vals[i])];
      i := i + 1;
    }
  }

  /** With no values left, the groups keep their items. */
  lemma {:induction false} WriteGroupsNoValues(es: seq<Elem>)
    ensures WriteGroups(es, []) == es
    decreases |es|
  {
    if |es| > 0 {
      var none: seq<string> := [];
      var c := Children(es[0]);
      assert Min(|c|, 0) == 0;
      assert none[..0] + c[0..] == c;
      assert none[0..] == none;
      assert WriteGroups(es, none) == [SetChildren(es[0], c)] + WriteGroups(es[1..], none);
      WriteGroupsNoValues(es[1..]);
      assert SetChildren(es[0], c) == es[0];
      assert es == [es[0]] + es[1..];
    }
  }

  /** One group of the nested write-back, from the suffixes the loop has
      not consumed yet. */
  lemma WriteGroupsSuffix(es: seq<Elem>, vals: seq<string>, j: nat, i: nat, i1: nat)
    requires j < |es| && i <= |vals| && i1 == i + Min(|Children(es[j])|, |vals| - i)
    ensures WriteGroups(es[j..], vals[i..]) ==
              [SetChildren(es[j], vals[i..i1] + Children(es[j])[i1 - i..])] + WriteGroups(es[j + 1..], vals[i1..])
  {
    var n := i1 - i;
    assert es[j..][0] == es[j];
    assert es[j..][1..] == es[j + 1..];
    assert vals[i..][..n] == vals[i..i1];
    assert vals[i..][n..] == vals[i1..];
  }

  /** One group of the nested write-back: its items take the values from
      position `i0` while both last. */
  method FillGroup(c: seq<string>, vals: seq<string>, i0: nat) returns (items: seq<string>, i: nat)
    requires i0 <= |vals|
    ensures i == i0 + Min(|c|, |vals| - i0) && i <= |vals|
    ensures items == vals[i0..i] + c[i - i0..]
  {
    items := c;
    var k := 0;
    i := i0;
    while k < |c| && i < |vals|
      invariant 0 <= k <= |c| && i == i0 + k && i <= |vals| && |items| == |c|
      invariant forall m :: 0 <= m < k ==> items[m] == vals[i0 + m]
      invariant forall m :: k <= m < |c| ==> items[m] == c[m]
    {
      items := items[k := vals[i]];
      k := k + 1;
      i := i + 1;
    }
    assert items == vals[i0..i] + c[k..];
  }

  /** The nested write-back loop of the validator pass: item after item,
      group after group, while values remain. */
  method WriteGroupsLoop(es: seq<Elem>, vals: seq<string>) returns (out: seq<Elem>)
    ensures out == WriteGroups(es, vals)
  {
    ghost var target := WriteGroups(es, vals);
    out := [];
    var i := 0;
    var j := 0;
    assert es[0..] == es && vals[0..] == vals;
    while j < |es| && i < |vals|
      invariant 0 <= j <= |es| && 0 <= i <= |vals| && |out| == j
      invariant target == out + WriteGroups(es[j..], vals[i..])
    {
      var items, i1 := FillGroup(Children(es[j]), vals, i);
      var x := SetChildren(es[j], items);
      WriteGroupsSuffix(es, vals, j, i, i1);
      AppendStep(target, out, WriteGroups(es[j..], vals[i..]), x, WriteGroups(es[j + 1..], vals[i1..]));
      out, i, j := out + [x], i1, j + 1;
      assert target == out + WriteGroups(es[j..], vals[i..]);
    }
    WriteGroupsRest(es, vals[i..], j);
    out := out + es[j..];
  }

  /** Moving one element from the pending part to the done part. */
  lemma AppendStep(target: seq<Elem>, done: seq<Elem>, pending: seq<Elem>, x: Elem, rest: seq<Elem>)
    requires target == done + pending && pending == [x] + rest
    ensures target == (done + [x]) + rest
  {
  }

  /** Where the nested write-back loop stops, the rest of the groups keep
      their items: there are none, or no values remain. */
  lemma WriteGroupsRest(es: seq<Elem>, vals: seq<string>, j: nat)
    requires j <= |es| && (j == |es| || vals == [])
    ensures WriteGroups(es[j..], vals) == es[j..]
  {
    if j < |es| {
      WriteGroupsNoValues(es[j..]);
    }
  }

  /** The groups already taken, in front of what the rest of the list takes. */
  function Prepend(items: seq<Elem>, rest: Option<Groups>): Option<Groups> {
    match rest
    case None => None
    case Some(g) => Some(Groups(items + g.items, g.end))
  }

  lemma PrependAppend(items: seq<Elem>, g: Elem, rest: Option<Groups>)
    ensures Prepend(items, Prepend([g], rest)) == Prepend(items + [g], rest)
  {
    if rest.Some? {
      assert items + ([g] + rest.value.items) == (items + [g]) + rest.value.items;
    }
  }

  lemma PrependEnd(items: seq<Elem>, end: nat)
    ensures Prepend(items, Some(Groups([], end))) == Some(Groups(items, end))
  {
    assert items + [] == items;
  }

  /** One whole group taken by GroupsFrom. */
  lemma GroupsFromStep(s: State, argv: seq<string>, i: nat, max: nat, n: nat, hasEnd: bool)
    requires Indexed(s) && max <= |argv| && n >= 1 && i < max && i + n <= max
    requires hasEnd || !EndOfInfinite(s, argv[i])
    ensures GroupsFrom(s, argv, i, max, n, hasEnd) ==
              Prepend([Group(argv[i..i + n])], GroupsFrom(s, argv, i + n, max, n, hasEnd))
  {
  }

  /** The group loop of a variadic multi-number list moves one group from
      what is left to what is taken. */
  lemma GroupsLoopStep(s: State, argv: seq<string>, i: nat, max: nat, n: nat, hasEnd: bool,
                       target: Option<Groups>, items: seq<Elem>, g: seq<string>)
    requires Indexed(s) && max <= |argv| && n >= 1 && i < max && i + n <= max
    requires hasEnd || !EndOfInfinite(s, argv[i])
    requires target == Prepend(items, GroupsFrom(s, argv, i, max, n, hasEnd)) && g == argv[i..i + n]
    ensures target == Prepend(items + [Group(g)], GroupsFrom(s, argv, i + n, max, n, hasEnd))
  {
    GroupsFromStep(s, argv, i, max, n, hasEnd);
    PrependAppend(items, Group(g), GroupsFrom(s, argv, i + n, max, n, hasEnd));
  }

  /** GroupsFrom where a group would run past the end. */
  lemma GroupsFromShort(s: State, argv: seq<string>, i: nat, max: nat, n: nat, hasEnd: bool)
    requires Indexed(s) && max <= |argv| && n >= 1 && i < max && i + n > max
    requires hasEnd || !EndOfInfinite(s, argv[i])
    ensures GroupsFrom(s, argv, i, max, n, hasEnd) == None
  {
  }

  /** GroupsFrom where the list stops. */
  lemma GroupsFromStop(s: State, argv: seq<string>, i: nat, max: nat, n: nat, hasEnd: bool)
    requires Indexed(s) && max <= |argv| && n >= 1 && i <= max
    requires i == max || (!hasEnd && EndOfInfinite(s, argv[i]))
    ensures GroupsFrom(s, argv, i, max, n, hasEnd) == Some(Groups([], i))
  {
  }

  /** A boolean flag inside the cluster is counted and the loop goes on. */
  lemma ClusterScanBoolean(s: State, sp: Split, i: nat)
    requires Indexed(s) && 1 <= i < |sp.option| - 1
    requires ShortKey(sp.option[i]) in s.names && IsBoolean(KindOf(s, ShortKey(sp.option[i])))
    ensures ClusterScan(s, sp, i) == ClusterScan(Bump(s, s.names[ShortKey(sp.option[i])]), sp, i + 1)
  {
  }

  /** The copy loop that builds a group, or the values of a fixed-count
      option, from the tokens `lo` to `hi`. */
  method CopyTokens(argv: seq<string>, lo: nat, hi: nat) returns (r: seq<string>)
    requires lo <= hi <= |argv|
    ensures r == argv[lo..hi]
  {
    r := [];
    var i := lo;
    while i < hi
      invariant lo <= i <= hi
      invariant r == argv[lo..i]
    {
      r := r + [argv[i]];
      i := i + 1;
    }
  }

  class Argparsor {
    const helpers: Helpers
    var binaryName: string
    var version: string
    var arguments: seq<Argument>
    var order: seq<nat>
    var argumentFromName: map<string, nat>
    var isAlternative: bool
    var isStrict: bool
    var isHelpException: bool
    var isVersionException: bool
    var additionalArguments: seq<string>

    /** What the parse routines read and change. */
    function Snapshot(): State
      reads this
    {
      State(arguments, order, argumentFromName, isAlternative, isStrict, additionalArguments)
    }

    ghost predicate Valid()
      reads this
    {
      HelpersOk(helpers) && NamesResolve(Snapshot()) && ListOrder(Snapshot())
    }

    /** `Argparsor(false)`: an empty registry. The two exception flags are
        not initialised, so their first value is left unspecified. */
    constructor (h: Helpers)
      requires HelpersOk(h)
      ensures Valid() && helpers == h
      ensures arguments == [] && order == [] && argumentFromName == map[] && additionalArguments == []
      ensures !isAlternative && !isStrict && binaryName == "" && version == ""
    {
      helpers := h;
      binaryName := "";
      version := "";
      arguments := [];
      order := [];
      argumentFromName := map[];
      isAlternative := false;
      isStrict := false;
      additionalArguments := [];
    }

    function GetVersion(): string reads this { version }
    function GetBinaryName(): string reads this { binaryName }
    function IsAlternative(): bool reads this { isAlternative }
    function IsStrict(): bool reads this { isStrict }
    function IsHelpException(): bool reads this { isHelpException }
    function IsVersionException(): bool reads this { isVersionException }

    /** `getAdditionalArguments`. */
    function GetAdditionalArguments(): seq<string> reads this { additionalArguments }

    method SetVersion(v: string)
      modifies this
      ensures GetVersion() == v
      ensures arguments == old(arguments) && order == old(order) && argumentFromName == old(argumentFromName)
      ensures binaryName == old(binaryName) && isAlternative == old(isAlternative) && isStrict == old(isStrict)
      ensures (isHelpException, isVersionException) == old((isHelpException, isVersionException))
      ensures additionalArguments == old(additionalArguments)
    {
      version := v;
    }

    method SetBinaryName(n: string)
      modifies this
      ensures GetBinaryName() == n
      ensures arguments == old(arguments) && order == old(order) && argumentFromName == old(argumentFromName)
      ensures version == old(version) && isAlternative == old(isAlternative) && isStrict == old(isStrict)
      ensures (isHelpException, isVersionException) == old((isHelpException, isVersionException))
      ensures additionalArguments == old(additionalArguments)
    {
      binaryName := n;
    }

    method SetAlternative(b: bool)
      modifies this
      ensures IsAlternative() == b
      ensures arguments == old(arguments) && order == old(order) && argumentFromName == old(argumentFromName)
      ensures version == old(version) && binaryName == old(binaryName) && isStrict == old(isStrict)
      ensures (isHelpException, isVersionException) == old((isHelpException, isVersionException))
      ensures additionalArguments == old(additionalArguments)
    {
      isAlternative := b;
    }

    method SetStrict(b: bool)
      modifies this
      ensures IsStrict() == b
      ensures arguments == old(arguments) && order == old(order) && argumentFromName == old(argumentFromName)
      ensures version == old(version) && binaryName == old(binaryName) && isAlternative == old(isAlternative)
      ensures (isHelpException, isVersionException) == old((isHelpException, isVersionException))
      ensures additionalArguments == old(additionalArguments)
    {
      isStrict := b;
    }

    method SetHelpException(b: bool)
      modifies this
      ensures IsHelpException() == b
      ensures arguments == old(arguments) && order == old(order) && argumentFromName == old(argumentFromName)
      ensures version == old(version) && binaryName == old(binaryName)
      ensures isAlternative == old(isAlternative) && isStrict == old(isStrict)
      ensures isVersionException == old(isVersionException)
      ensures additionalArguments == old(additionalArguments)
    {
      isHelpException := b;
    }

    method SetVersionException(b: bool)
      modifies this
      ensures IsVersionException() == b
      ensures arguments == old(arguments) && order == old(order) && argumentFromName == old(argumentFromName)
      ensures version == old(version) && binaryName == old(binaryName)
      ensures isAlternative == old(isAlternative) && isStrict == old(isStrict)
      ensures isHelpException == old(isHelpException)
      ensures additionalArguments == old(additionalArguments)
    {
      isVersionException := b;
    }

    /** `argumentExists`. */
    function ArgumentExists(n: string): (r: bool)
      reads this
      requires Valid()
      ensures r <==> n in argumentFromName
      ensures r ==> n in arguments[argumentFromName[n]].nameOrFlags
    {
      n in argumentFromName
    }

    /** `getArgument` and `operator[]`. */
    function GetArgument(n: string): (r: Result<Argument>)
      reads this
      requires Valid()
      ensures r.Ok? <==> n in argumentFromName
      ensures r.Ok? ==> r.value == arguments[argumentFromName[n]] && n in r.value.nameOrFlags
      ensures r.Err? ==> r.error == AccessDenied(n, "argument not found")
    {
      if n in argumentFromName then Ok(arguments[argumentFromName[n]])
      else Err(AccessDenied(n, "argument not found"))
    }

    /** `updateArgument`: the handle of the declaration a name designates. */
    function UpdateArgument(n: string): (r: Result<nat>)
      reads this
      requires Valid()
      ensures r.Ok? <==> n in argumentFromName
      ensures r.Ok? ==> r.value < |arguments| && n in arguments[r.value].nameOrFlags
      ensures r.Ok? ==> GetArgument(n) == Ok(arguments[r.value])
      ensures r.Err? ==> r.error == AccessDenied(n, "argument not found")
    {
      if n in argumentFromName then Ok(argumentFromName[n])
      else Err(AccessDenied(n, "argument not found"))
    }

    /** `addArgument(list)`: creates a declaration, appends it to the list,
      maps each of its names that is not registered yet and sorts the list. */
    method AddArgument(list: seq<string>) returns (r: Result<nat>)
      modifies this
      requires Valid()
      ensures Valid()
      ensures NewDeclaration(helpers, old(argumentFromName), list).Err? ==>
                r == Err(NewDeclaration(helpers, old(argumentFromName), list).error) && Snapshot() == old(Snapshot())
      ensures NewDeclaration(helpers, old(argumentFromName), list).Ok? ==>
                && r == Ok(old(|arguments|))
                && arguments == old(arguments) + [NewDeclaration(helpers, old(argumentFromName), list).value]
                && argumentFromName == InsertAbsent(old(argumentFromName), arguments[r.value].nameOrFlags, r.value)
                && order == helpers.sortOrder(arguments, old(order) + [r.value])
      ensures additionalArguments == old(additionalArguments)
      ensures isAlternative == old(isAlternative) && isStrict == old(isStrict)
      ensures binaryName == old(binaryName) && version == old(version)
      ensures (isHelpException, isVersionException) == old((isHelpException, isVersionException))
    {
      var created := CreateArgument(list);
      if created.Err? {
        return Err(created.error);
      }
      NewDeclarationWellFormed(helpers, argumentFromName, list);
      var h := Register(created.value);
      r := Ok(h);
    }

    /** The checks of `addArgument` and the declaration it builds. */
    method CreateArgument(list: seq<string>) returns (r: Result<Argument>)
      requires HelpersOk(helpers)
      ensures r == NewDeclaration(helpers, argumentFromName, list)
    {
      if |list| == 0 {
        return Err(ArgumentError("", "invalid empty flag"));
      }
      if |list| == 1 && (list[0] == "" || list[0][0] != '-') {
        if list[0] == "" {
          return Err(ArgumentError("", "bad name argument"));
        }
        if list[0] in argumentFromName {
          return Err(ArgumentError(list[0], "bad name argument already exist"));
        }
        return Ok(NewArgument().(nameOrFlags := [list[0]], nargs := 1, argType := PositionalArgument));
      }
      var i := 0;
      while i < |list|
        invariant 0 <= i <= |list|
        invariant FlagsCheck(helpers, argumentFromName, list, 0) == FlagsCheck(helpers, argumentFromName, list, i)
      {
        var e := helpers.validFormatFlag(list[i]);
        if e.Some? {
          return Err(e.value);
        }
        if list[0] in argumentFromName {
          return Err(ArgumentError(list[0], "invalid flag already exist"));
        }
        i := i + 1;
      }
      r := Ok(NewArgument().(nameOrFlags := helpers.sortNameOrFlags(list)));
    }

    /** The end of `addArgument`: appends the declaration, maps each of
      its names that is not registered yet to it and sorts the list. */
    method Register(a: Argument) returns (h: nat)
      modifies this
      requires Valid() && WellFormed(a)
      ensures Valid()
      ensures h == old(|arguments|) && arguments == old(arguments) + [a]
      ensures argumentFromName == InsertAbsent(old(argumentFromName), a.nameOrFlags, h)
      ensures order == helpers.sortOrder(arguments, old(order) + [h])
      ensures additionalArguments == old(additionalArguments) && binaryName == old(binaryName) && version == old(version)
      ensures isAlternative == old(isAlternative) && isStrict == old(isStrict)
      ensures (isHelpException, isVersionException) == old((isHelpException, isVersionException))
    {
      ghost var s := Snapshot();
      AppendResolves(s, a);
      h := |arguments|;
      var names := InsertNames(argumentFromName, a.nameOrFlags, h);
      arguments := arguments + [a];
      argumentFromName := names;
      order := order + [h];
      assert Snapshot() == Pushed(s, a);
      SortList();
    }

    /** `_arguments.sort(&Argument::compareOption)`: reorders the list and
      changes nothing else. */
    method SortList()
      modifies this
      requires HelpersOk(helpers) && NamesResolve(Snapshot()) && ListOrder(Snapshot())
      ensures Valid()
      ensures order == helpers.sortOrder(arguments, old(order))
      ensures arguments == old(arguments) && argumentFromName == old(argumentFromName)
      ensures additionalArguments == old(additionalArguments)
      ensures isAlternative == old(isAlternative) && isStrict == old(isStrict)
      ensures binaryName == old(binaryName) && version == old(version)
      ensures (isHelpException, isVersionException) == old((isHelpException, isVersionException))
    {
      var sorted := helpers.sortOrder(arguments, order);
      ListOrderBelow(Snapshot().(order := sorted));
      ReorderKeepsNames(Snapshot(), sorted);
      order := sorted;
    }

    /** `flag(f)` on the declaration `h`: adds `f` to its names (kept
      sorted), maps `f` to it unless `f` is registered already and sorts
      the list. */
    method Flag(h: nat, f: string) returns (r: Result<nat>)
      modifies this
      requires Valid() && h < |arguments|
      ensures Valid()
      ensures FlagError(helpers, old(argumentFromName), old(arguments[h]), f).Some? ==>
                r == Err(FlagError(helpers, old(argumentFromName), old(arguments[h]), f).value) && Snapshot() == old(Snapshot())
      ensures FlagError(helpers, old(argumentFromName), old(arguments[h]), f).None? ==>
                && r == Ok(h)
                && arguments == old(arguments)[h := old(arguments[h]).(nameOrFlags := helpers.sortNameOrFlags(old(arguments[h]).nameOrFlags + [f]))]
                && argumentFromName == InsertAbsent(old(argumentFromName), [f], h)
                && order == helpers.sortOrder(arguments, old(order))
      ensures additionalArguments == old(additionalArguments)
      ensures isAlternative == old(isAlternative) && isStrict == old(isStrict)
      ensures binaryName == old(binaryName) && version == old(version)
      ensures (isHelpException, isVersionException) == old((isHelpException, isVersionException))
    {
      var a := arguments[h];
      if a.argType == PositionalArgument {
        return Err(ArgumentError(f, "can't add flag in positionnal argument"));
      }
      var e := helpers.validFlag(argumentFromName.Keys, f);
      if e.Some? {
        return Err(e.value);
      }
      var flags := helpers.sortNameOrFlags(a.nameOrFlags + [f]);
      FlagResolves(Snapshot(), h, flags, f);
      arguments := arguments[h := a.(nameOrFlags := flags)];
      argumentFromName := InsertAbsent(argumentFromName, [f], h);
      SortList();
      r := Ok(h);
    }

    /** One fluent setter (`help`, `metavar`, `required`, `nargs`,
      `action`, `defaults`, `valid`) applied to the declaration `h`; the
      list is not sorted again. */
    method Apply(h: nat, setter: Setter)
      modifies this
      requires Valid() && h < |arguments|
      ensures Valid()
      ensures arguments == old(arguments)[h := ApplySetter(helpers, old(arguments[h]), setter)]
      ensures order == old(order) && argumentFromName == old(argumentFromName)
      ensures additionalArguments == old(additionalArguments)
      ensures isAlternative == old(isAlternative) && isStrict == old(isStrict)
      ensures binaryName == old(binaryName) && version == old(version)
      ensures (isHelpException, isVersionException) == old((isHelpException, isVersionException))
    {
      var b := ApplySetter(helpers, arguments[h], setter);
      arguments := arguments[h := b];
      assert forall k :: 0 <= k < |arguments| ==> arguments[k].nameOrFlags == old(arguments[k]).nameOrFlags;
    }

    /** `Argparsor(true)`'s extra step on the still empty registry:
      `addArgument("-h").flag("--help").action(HELP).help(...)`. Each step
      that throws ends it with the state that step left. */
    method DefineHelp() returns (r: Result<nat>)
      modifies this
      requires Valid() && arguments == []
      ensures Valid()
      ensures NewDeclaration(helpers, old(argumentFromName), ["-h"]).Err? ==>
                r == Err(NewDeclaration(helpers, old(argumentFromName), ["-h"]).error) && arguments == [] && order == [] && argumentFromName == map[]
      ensures var d := NewDeclaration(helpers, old(argumentFromName), ["-h"]);
              d.Ok? && FlagError(helpers, map["-h" := 0], d.value, "--help").Some? ==>
                && r == Err(FlagError(helpers, map["-h" := 0], d.value, "--help").value)
                && |arguments| == 1 && arguments[0] == d.value && order == [0] && argumentFromName == map["-h" := 0]
      ensures var d := NewDeclaration(helpers, old(argumentFromName), ["-h"]);
              d.Ok? && FlagError(helpers, map["-h" := 0], d.value, "--help").None? ==>
                && r == Ok(0)
                && |arguments| == 1 && arguments[0] == HelpDeclaration(helpers, d.value) && order == [0]
                && argumentFromName == map["-h" := 0, "--help" := 0]
      ensures additionalArguments == old(additionalArguments)
      ensures isAlternative == old(isAlternative) && isStrict == old(isStrict)
      ensures binaryName == old(binaryName) && version == old(version)
      ensures (isHelpException, isVersionException) == old((isHelpException, isVersionException))
    {
      ListOrderPermutes(Snapshot());
      assert argumentFromName == map[];
      var added := AddArgument(["-h"]);
      if added.Err? {
        return Err(added.error);
      }
      HelpAdded(helpers, arguments[0], arguments);
      r := AddHelpFlag();
    }

    /** The `flag("--help").action(HELP).help(...)` part of `DefineHelp`,
      on the registry holding the one declaration `-h`. */
    method AddHelpFlag() returns (r: Result<nat>)
      modifies this
      requires Valid() && |arguments| == 1 && arguments[0].nameOrFlags == ["-h"]
      requires order == [0] && argumentFromName == map["-h" := 0]
      ensures Valid()
      ensures FlagError(helpers, map["-h" := 0], old(arguments[0]), "--help").Some? ==>
                r == Err(FlagError(helpers, map["-h" := 0], old(arguments[0]), "--help").value) && Snapshot() == old(Snapshot())
      ensures FlagError(helpers, map["-h" := 0], old(arguments[0]), "--help").None? ==>
                && r == Ok(0)
                && |arguments| == 1 && arguments[0] == HelpDeclaration(helpers, old(arguments[0])) && order == [0]
                && argumentFromName == map["-h" := 0, "--help" := 0]
      ensures additionalArguments == old(additionalArguments)
      ensures isAlternative == old(isAlternative) && isStrict == old(isStrict)
      ensures binaryName == old(binaryName) && version == old(version)
      ensures (isHelpException, isVersionException) == old((isHelpException, isVersionException))
    {
      ghost var a0 := arguments[0];
      var flagged := Flag(0, "--help");
      if flagged.Err? {
        return Err(flagged.error);
      }
      HelpFlagged(helpers, arguments);
      ghost var flaggedOne := arguments[0];
      MarkHelp(0);
      assert arguments[0] == HelpDeclaration(helpers, a0) by {
        assert flaggedOne == a0.(nameOrFlags := helpers.sortNameOrFlags(a0.nameOrFlags + ["--help"]));
      }
      r := Ok(0);
    }

    /** The `action(HELP).help(...)` part of `DefineHelp`. */
    method MarkHelp(h: nat)
      modifies this
      requires Valid() && h < |arguments|
      ensures Valid()
      ensures arguments == old(arguments)[h := ApplySetter(helpers, ApplySetter(helpers, old(arguments[h]), SetAction(HelpAction)), SetHelp("show this help message and exit"))]
      ensures order == old(order) && argumentFromName == old(argumentFromName)
      ensures additionalArguments == old(additionalArguments)
      ensures isAlternative == old(isAlternative) && isStrict == old(isStrict)
      ensures binaryName == old(binaryName) && version == old(version)
      ensures (isHelpException, isVersionException) == old((isHelpException, isVersionException))
    {
      Apply(h, SetAction(HelpAction));
      Apply(h, SetHelp("show this help message and exit"));
    }

    /** `_endOfInfiniteArgument`, with its cluster loop. */
    method EndOfInfiniteArgument(t: string) returns (r: bool)
      requires Indexed(Snapshot())
      ensures r == EndOfInfinite(Snapshot(), t)
    {
      if IsShortOption(t) {
        var sp := TakeArg(t);
        ShortOptionPart(t);
        if isAlternative && "-" + sp.option in argumentFromName {
          return true;
        }
        var i := 1;
        while i < |sp.option| - 1
          invariant 1 <= i
          invariant ClusterLookahead(Snapshot(), sp, 1) == ClusterLookahead(Snapshot(), sp, i)
          decreases |sp.option| - i
        {
          var key := ShortKey(sp.option[i]);
          if key !in argumentFromName {
            return false;
          }
          var kind := arguments[argumentFromName[key]].argType;
          if !sp.hasArg && MidClusterValue(kind) {
            return true;
          }
          if IsBoolean(kind) {
            return true;
          }
          i := i + 1;
        }
        return ShortKey(sp.option[|sp.option| - 1]) in argumentFromName;
      } else if IsLongOption(t) {
        var sp := TakeArg(t);
        return sp.option in argumentFromName;
      }
      return false;
    }

    /** The loop of a variadic list: one value per token from `from`, up to
      `max`, stopping at a token that starts a new option unless `hasEnd`. */
    method TakeLeaves(argv: seq<string>, from: nat, max: nat, hasEnd: bool) returns (items: seq<Elem>, count: nat)
      requires Indexed(Snapshot()) && from <= max <= |argv|
      ensures count == TakeCount(Snapshot(), argv, from, max, hasEnd)
      ensures from + count <= max && items == Leaves(argv[from..from + count])
    {
      ghost var s := Snapshot();
      items := [];
      var i := from;
      while i < max
        invariant from <= i <= max
        invariant TakeCount(s, argv, from, max, hasEnd) == (i - from) + TakeCount(s, argv, i, max, hasEnd)
        invariant items == Leaves(argv[from..i])
      {
        if !hasEnd {
          var stop := EndOfInfiniteArgument(argv[i]);
          if stop {
            break;
          }
        }
        assert Leaves(argv[from..i + 1]) == Leaves(argv[from..i]) + [Leaf(argv[i])];
        items := items + [Leaf(argv[i])];
        i := i + 1;
      }
      count := i - from;
    }

    /** The loop of a variadic list of groups of `n` tokens; `None` when a
      group would run past `max`. */
    method TakeGroups(argv: seq<string>, from: nat, max: nat, n: nat, hasEnd: bool) returns (r: Option<Groups>)
      requires Indexed(Snapshot()) && from <= max <= |argv| && n >= 1
      ensures r == GroupsFrom(Snapshot(), argv, from, max, n, hasEnd)
    {
      ghost var s := Snapshot();
      ghost var target := GroupsFrom(s, argv, from, max, n, hasEnd);
      var items: seq<Elem> := [];
      var i := from;
      assert target == Prepend(items, GroupsFrom(s, argv, i, max, n, hasEnd)) by {
        if target.Some? {
          assert [] + target.value.items == target.value.items;
        }
      }
      while i < max
        invariant from <= i <= max
        invariant target == Prepend(items, GroupsFrom(s, argv, i, max, n, hasEnd))
        decreases max - i
      {
        if !hasEnd {
          var stop := EndOfInfiniteArgument(argv[i]);
          assert stop == EndOfInfinite(s, argv[i]);
          if stop {
            break;
          }
        }
        if i + n > max {
          GroupsFromShort(s, argv, i, max, n, hasEnd);
          return None;
        }
        var g := CopyTokens(argv, i, i + n);
        GroupsLoopStep(s, argv, i, max, n, hasEnd, target, items, g);
        items, i := items + [Group(g)], i + n;
      }
      GroupsFromStop(s, argv, i, max, n, hasEnd);
      PrependEnd(items, i);
      return Some(Groups(items, i));
    }

    /** The inline-value half of `_parseArgument` (`-o=value`, `--opt=value`
      or the rest of a short cluster). */
    method InlineArgument(option: string, arg: string, a: Argument) returns (r: Result<Argument>)
      ensures r == InlineValue(option, arg, a)
    {
      var kept := if a.isExist then a.elems else [];
      match a.argType
      case SimpleOption => r := Ok(a.(argument := arg));
      case NumberOption => r := Err(ParseError(option, "option cannot use with only 1 argument"));
      case MultiNumberOption => r := Err(ParseError(option, "option cannot use with only 1 argument"));
      case MultiNumberInfiniteOption => r := Err(ParseError(option, "option cannot use with only 1 argument"));
      case InfiniteOption => r := Ok(a.(elems := [Leaf(arg)]));
      case MultiOption => r := Ok(a.(elems := kept + [Leaf(arg)]));
      case MultiInfiniteOption => r := Ok(a.(elems := kept + [Leaf(arg)]));
      case _ => r := Err(ParseError(option, "option cannot use with argument"));
    }

    /** The classes of `_parseArgument` that take a fixed number of tokens. */
    method FixedArguments(argv: seq<string>, max: nat, index: nat, option: string, a: Argument) returns (r: Result<Step>)
      requires index < max <= |argv|
      requires a.argType in {SimpleOption, NumberOption, MultiOption, MultiNumberOption}
      ensures r == FixedValues(argv, max, index, option, a)
    {
      var n := if a.argType == SimpleOption || a.argType == MultiOption then 1 else a.nargs;
      if index + n >= max {
        return Err(ParseError(option, "bad number of argument"));
      }
      var values := CopyTokens(argv, index + 1, index + 1 + n);
      r := Ok(Step(FixedFill(a, values), index + n));
    }

    /** The classes of `_parseArgument` that take single tokens until the
      lookahead stops them. */
    method VariadicArguments(argv: seq<string>, max: nat, index: nat, a: Argument) returns (r: Result<Step>)
      requires Indexed(Snapshot()) && index < max <= |argv|
      requires a.argType == InfiniteOption || a.argType == MultiInfiniteOption
      ensures r == VariadicValues(Snapshot(), argv, max, index, a)
    {
      var items, count := TakeLeaves(argv, index + 1, max, false);
      r := Ok(Step(VariadicFill(a, items), index + count));
    }

    /** MULTI_NUMBER_INFINITE_OPTION in `_parseArgument`: whole groups until
      the lookahead stops them. */
    method GroupArguments(argv: seq<string>, max: nat, index: nat, option: string, a: Argument) returns (r: Result<Step>)
      requires Indexed(Snapshot()) && WellFormed(a) && index < max <= |argv|
      requires a.argType == MultiNumberInfiniteOption
      ensures r == GroupValues(Snapshot(), argv, max, index, option, a)
    {
      var groups := TakeGroups(argv, index + 1, max, a.nargs, false);
      if groups.None? {
        return Err(ParseError(option, "bad number of argument"));
      }
      r := Ok(Step(a.(elems := Kept(a) + groups.value.items), groups.value.end - 1));
    }

    /** The other half of `_parseArgument`: the values taken from the
      tokens after `index`, and the new cursor. */
    method NextArguments(argv: seq<string>, max: nat, index: nat, option: string, a: Argument) returns (r: Result<Step>)
      requires Indexed(Snapshot()) && WellFormed(a) && index < max <= |argv|
      ensures r == NextValues(Snapshot(), argv, max, index, option, a)
    {
      if a.argType in {SimpleOption, NumberOption, MultiOption, MultiNumberOption} {
        r := FixedArguments(argv, max, index, option, a);
      } else if a.argType == InfiniteOption || a.argType == MultiInfiniteOption {
        r := VariadicArguments(argv, max, index, a);
      } else if a.argType == MultiNumberInfiniteOption {
        r := GroupArguments(argv, max, index, option, a);
      } else {
        r := Ok(Step(a, index));
      }
    }

    /** `_parseArgument` on the declaration `h`: consumes its value, marks
      it present and counts the occurrence; returns the new cursor. */
    method ParseArgument(argv: seq<string>, max: nat, index: nat, hasArg: bool, option: string, arg: string, h: nat)
      returns (r: Result<nat>)
      modifies this
      requires Valid() && h < |arguments| && index < max <= |argv|
      ensures Valid()
      ensures binaryName == old(binaryName) && version == old(version)
      ensures (isHelpException, isVersionException) == old((isHelpException, isVersionException))
      ensures Follows(ParseArgumentAt(old(Snapshot()), argv, max, index, hasArg, option, arg, h), r, Snapshot())
    {
      var step :- ArgumentStep(argv, max, index, hasArg, option, arg, arguments[h]);
      StoreArgument(h, step.arg);
      r := Ok(step.index);
    }

    /** What `_parseArgument` does to the declaration `a`, before it is
      stored back. */
    method ArgumentStep(argv: seq<string>, max: nat, index: nat, hasArg: bool, option: string, arg: string, a: Argument)
      returns (r: Result<Step>)
      requires Indexed(Snapshot()) && WellFormed(a) && index < max <= |argv|
      ensures r == ParseArgumentSpec(Snapshot(), argv, max, index, hasArg, option, arg, a)
    {
      var step: Step;
      if hasArg {
        var b :- InlineArgument(option, arg, a);
        step := Step(b, index);
      } else {
        step :- NextArguments(argv, max, index, option, a);
      }
      r := Ok(Step(step.arg.(isExist := true, count := a.count + 1), step.index));
    }

    /** Marks the declaration `h` present and counts one more occurrence (a
      boolean in a short cluster, or a mid-cluster flag before its value). */
    method Mark(h: nat)
      modifies this
      requires Valid() && h < |arguments|
      ensures Valid() && binaryName == old(binaryName) && version == old(version)
      ensures (isHelpException, isVersionException) == old((isHelpException, isVersionException))
      ensures Snapshot() == Bump(old(Snapshot()), h)
    {
      ghost var s := Snapshot();
      var a := arguments[h];
      arguments := arguments[h := a.(isExist := true, count := a.count + 1)];
      SameDeclarationsKeepNames(s, Snapshot());
    }

    /** `_parseShortArgument` on the token at `index`; returns the new cursor. */
    method ParseShortArgument(argv: seq<string>, max: nat, index: nat) returns (r: Result<nat>)
      modifies this
      requires Valid() && index < max <= |argv| && IsShortOption(argv[index])
      ensures Valid() && binaryName == old(binaryName) && version == old(version)
      ensures (isHelpException, isVersionException) == old((isHelpException, isVersionException))
      ensures Follows(ShortSpec(old(Snapshot()), argv, max, index), r, Snapshot())
    {
      var sp := TakeArg(argv[index]);
      ShortOptionPart(argv[index]);
      if isAlternative && "-" + sp.option in argumentFromName {
        r := ParseArgument(argv, max, index, sp.hasArg, sp.option[1..], sp.arg, argumentFromName["-" + sp.option]);
      } else {
        r := ParseCluster(argv, max, index, sp);
      }
    }

    /** The cluster part of `_parseShortArgument`: every character but the
      last must be a boolean flag, or a flag that takes the rest of the
      token as its value; the last one takes the inline value, if any. */
    method ParseCluster(argv: seq<string>, max: nat, index: nat, sp: Split) returns (r: Result<nat>)
      modifies this
      requires Valid() && index < max <= |argv| && |sp.option| >= 1
      ensures Valid() && binaryName == old(binaryName) && version == old(version)
      ensures (isHelpException, isVersionException) == old((isHelpException, isVersionException))
      ensures Follows(ClusterSpec(old(Snapshot()), argv, max, index, sp), r, Snapshot())
    {
      var stop := ScanCluster(sp);
      match stop
      case Failed(e) =>
        r := Err(e);
      case TakesRest(i) =>
        r := ParseClusterRest(argv, max, index, sp, i);
      case AtLast =>
        r := ParseClusterLast(argv, max, index, sp);
    }

    /** A flag inside the cluster that takes the rest of the token as its
      value: it is counted here, and once more by `_parseArgument`. */
    method ParseClusterRest(argv: seq<string>, max: nat, index: nat, sp: Split, i: nat) returns (r: Result<nat>)
      modifies this
      requires Valid() && index < max <= |argv| && i < |sp.option| && ShortKey(sp.option[i]) in argumentFromName
      ensures Valid() && binaryName == old(binaryName) && version == old(version)
      ensures (isHelpException, isVersionException) == old((isHelpException, isVersionException))
      ensures Follows(RestSpec(old(Snapshot()), argv, max, index, sp, i), r, Snapshot())
    {
      var c := sp.option[i];
      var h := argumentFromName[ShortKey(c)];
      Mark(h);
      r := ParseArgument(argv, max, index, true, [c], sp.option[i + 1..], h);
    }

    /** The last character of a cluster, which takes the inline value. */
    method ParseClusterLast(argv: seq<string>, max: nat, index: nat, sp: Split) returns (r: Result<nat>)
      modifies this
      requires Valid() && index < max <= |argv| && |sp.option| >= 1
      ensures Valid() && binaryName == old(binaryName) && version == old(version)
      ensures (isHelpException, isVersionException) == old((isHelpException, isVersionException))
      ensures Follows(LastSpec(old(Snapshot()), argv, max, index, sp), r, Snapshot())
    {
      var c := sp.option[|sp.option| - 1];
      if ShortKey(c) !in argumentFromName {
        return Err(ParseError([c], "invalid option"));
      }
      r := ParseArgument(argv, max, index, sp.hasArg, [c], sp.arg, argumentFromName[ShortKey(c)]);
    }

    /** The loop over the cluster's characters before the last: booleans are
      marked present, and the loop stops at the first character that is
      unknown, takes a value, or takes the rest of the token. */
    method ScanCluster(sp: Split) returns (stop: ClusterStop)
      modifies this
      requires Valid()
      ensures Valid() && binaryName == old(binaryName) && version == old(version)
      ensures (isHelpException, isVersionException) == old((isHelpException, isVersionException))
      ensures (Snapshot(), stop) == ClusterScan(old(Snapshot()), sp, 1)
    {
      ghost var scan := ClusterScan(Snapshot(), sp, 1);
      var i := 1;
      while i < |sp.option| - 1
        invariant 1 <= i
        invariant Valid() && binaryName == old(binaryName) && version == old(version)
        invariant (isHelpException, isVersionException) == old((isHelpException, isVersionException))
        invariant scan == ClusterScan(Snapshot(), sp, i)
        decreases |sp.option| - i
      {
        var done := ScanCharacter(sp, i);
        if done.Some? {
          return done.value;
        }
        i := i + 1;
      }
      stop := AtLast;
    }

    /** One character of the cluster loop: where the loop stops on it, or
      `None` when it is a boolean flag, which is marked present. */
    method ScanCharacter(sp: Split, i: nat) returns (done: Option<ClusterStop>)
      modifies this
      requires Valid() && 1 <= i < |sp.option| - 1
      ensures Valid() && binaryName == old(binaryName) && version == old(version)
      ensures (isHelpException, isVersionException) == old((isHelpException, isVersionException))
      ensures done.Some? ==> ClusterScan(old(Snapshot()), sp, i) == (Snapshot(), done.value)
      ensures done.None? ==> ClusterScan(old(Snapshot()), sp, i) == ClusterScan(Snapshot(), sp, i + 1)
    {
      var c := sp.option[i];
      if ShortKey(c) !in argumentFromName {
        return Some(Failed(ParseError([c], "invalid option")));
      }
      var h := argumentFromName[ShortKey(c)];
      var kind := arguments[h].argType;
      if !sp.hasArg && MidClusterValue(kind) {
        return Some(TakesRest(i));
      }
      if !IsBoolean(kind) {
        return Some(Failed(ParseError([c], "only last option can be use a parameter")));
      }
      ClusterScanBoolean(Snapshot(), sp, i);
      Mark(h);
      done := None;
    }

    /** `_parseLongArgument` on the token at `index`; returns the new cursor. */
    method ParseLongArgument(argv: seq<string>, max: nat, index: nat) returns (r: Result<nat>)
      modifies this
      requires Valid() && index < max <= |argv| && IsLongOption(argv[index])
      ensures Valid() && binaryName == old(binaryName) && version == old(version)
      ensures (isHelpException, isVersionException) == old((isHelpException, isVersionException))
      ensures Follows(LongSpec(old(Snapshot()), argv, max, index), r, Snapshot())
    {
      var sp := TakeArg(argv[index]);
      LongOptionPart(argv[index]);
      if sp.option !in argumentFromName {
        return Err(ParseError(sp.option[2..], "invalid option"));
      }
      r := ParseArgument(argv, max, index, sp.hasArg, sp.option[2..], sp.arg, argumentFromName[sp.option]);
    }

    /** The search of `_parsePositionnalArgument`, along the list, for the
      first positional declaration that is not present yet. */
    method FindOpenPositional() returns (j: nat)
      requires HandlesBelow(order, |arguments|)
      ensures j == FirstOpenPositional(arguments, order)
    {
      j := 0;
      while j < |order| && (arguments[order[j]].isExist || !IsPositional(arguments[order[j]].argType))
        invariant 0 <= j <= |order|
        invariant forall i :: 0 <= i < j ==> arguments[order[i]].isExist || !IsPositional(arguments[order[i]].argType)
      {
        j := j + 1;
      }
    }

    /** The value-taking part of `_parsePositionnalArgument` for the open
      declaration `a` it found. */
    method PositionalStep(argv: seq<string>, argc: nat, index: nat, hasEnd: bool, a: Argument) returns (r: Result<Step>)
      requires Indexed(Snapshot()) && index < argc <= |argv| && WellFormed(a)
      requires hasEnd || !EndOfInfinite(Snapshot(), argv[index])
      ensures r == PositionalFill(Snapshot(), argv, argc, index, hasEnd, a)
    {
      if a.argType == PositionalArgument {
        r := Ok(Step(SetArgument(a, argv[index]), index));
      } else if a.argType == NumberPositionalArgument {
        r := NumberPositionalStep(argv, argc, index, a);
      } else if a.argType == InfinitePositionalArgument {
        r := InfinitePositionalStep(argv, argc, index, hasEnd, a);
      } else if a.argType == InfiniteNumberPositionalArgument {
        r := GroupPositionalStep(argv, argc, index, hasEnd, a);
      } else {
        r := Ok(Step(a, index));
      }
    }

    /** NUMBER_POSITIONAL_ARGUMENT: the copy of exactly `nargs` tokens. */
    method NumberPositionalStep(argv: seq<string>, argc: nat, index: nat, a: Argument) returns (r: Result<Step>)
      requires index < argc <= |argv| && WellFormed(a) && a.argType == NumberPositionalArgument
      ensures r == NumberPositional(argv, argc, index, a)
    {
      if index + a.nargs > argc {
        return Err(ParseError(Front(a), "bad number of argument"));
      }
      var values := CopyTokens(argv, index, index + a.nargs);
      r := Ok(Step(Appended(a, Leaves(values)), index + a.nargs - 1));
    }

    /** INFINITE_POSITIONAL_ARGUMENT: the loop over single tokens. */
    method InfinitePositionalStep(argv: seq<string>, argc: nat, index: nat, hasEnd: bool, a: Argument) returns (r: Result<Step>)
      requires Indexed(Snapshot()) && index < argc <= |argv|
      requires hasEnd || !EndOfInfinite(Snapshot(), argv[index])
      ensures r == InfinitePositional(Snapshot(), argv, argc, index, hasEnd, a)
    {
      var items, count := TakeLeaves(argv, index, argc, hasEnd);
      assert count >= 1;
      r := Ok(Step(Appended(a, items), index + count - 1));
    }

    /** INFINITE_NUMBER_POSITIONAL_ARGUMENT: the loop over whole groups. */
    method GroupPositionalStep(argv: seq<string>, argc: nat, index: nat, hasEnd: bool, a: Argument) returns (r: Result<Step>)
      requires Indexed(Snapshot()) && index < argc <= |argv| && WellFormed(a) && a.argType == InfiniteNumberPositionalArgument
      requires hasEnd || !EndOfInfinite(Snapshot(), argv[index])
      ensures r == GroupPositional(Snapshot(), argv, argc, index, hasEnd, a)
    {
      var groups := TakeGroups(argv, index, argc, a.nargs, hasEnd);
      if groups.None? {
        return Err(ParseError(Front(a), "bad number of argument"));
      }
      PositionalGroupsNotEmpty(Snapshot(), argv, index, argc, a.nargs, hasEnd);
      r := Ok(Step(Appended(a, groups.value.items), groups.value.end - 1));
    }

    /** `_parsePositionnalArgument` on the plain token at `index`: fills the
      first open positional, or keeps the token as an additional argument
      (an exception in strict mode); returns the new cursor. */
    method ParsePositionalArgument(argv: seq<string>, argc: nat, index: nat, hasEnd: bool) returns (r: Result<nat>)
      modifies this
      requires Valid() && index < argc <= |argv|
      requires hasEnd || !EndOfInfinite(Snapshot(), argv[index])
      ensures Valid() && binaryName == old(binaryName) && version == old(version)
      ensures (isHelpException, isVersionException) == old((isHelpException, isVersionException))
      ensures Follows(PositionalSpec(old(Snapshot()), argv, argc, index, hasEnd), r, Snapshot())
    {
      var j := FindOpenPositional();
      if j < |order| {
        var k := order[j];
        var step :- PositionalStep(argv, argc, index, hasEnd, arguments[k]);
        StoreArgument(k, step.arg.(isExist := true));
        r := Ok(step.index);
      } else if isStrict {
        r := Err(ParseError(argv[index], "invalid additional argument"));
      } else {
        additionalArguments := additionalArguments + [argv[index]];
        assert Snapshot() == old(Snapshot()).(additional := old(additionalArguments) + [argv[index]]);
        r := Ok(index);
      }
    }

    /** The write of a parsed declaration back into its place in the list. */
    method StoreArgument(k: nat, a: Argument)
      modifies this
      requires Valid() && k < |arguments| && SameDeclaration(arguments[k], a)
      ensures Valid() && Snapshot() == Store(old(Snapshot()), k, a)
      ensures binaryName == old(binaryName) && version == old(version)
      ensures (isHelpException, isVersionException) == old((isHelpException, isVersionException))
    {
      ghost var s := Snapshot();
      arguments := arguments[k := a];
      assert Snapshot() == Store(s, k, a);
      SameDeclarationsKeepNames(s, Snapshot());
    }

    /** One token of the loop of `parseArguments` after `--`, stated against
      the rest of that loop: `target` is where the loop ends from cursor
      `i - 1`. */
    method ParsePastEnd(argv: seq<string>, i: nat, ghost target: Result<State>) returns (r: Result<nat>)
      modifies this
      requires Valid() && 1 <= i < |argv|
      requires target == AfterEnd(Snapshot(), argv, i - 1)
      ensures Valid() && binaryName == old(binaryName) && version == old(version)
      ensures (isHelpException, isVersionException) == old((isHelpException, isVersionException))
      ensures r.Err? ==> target == Err(r.error)
      ensures r.Ok? ==> i <= r.value < |argv| && target == AfterEnd(Snapshot(), argv, r.value)
    {
      AfterEndToken(Snapshot(), argv, i);
      r := ParsePositionalArgument(argv, |argv|, i, true);
    }

    /** The loop of `parseArguments` after the `--` at `end`: every
      remaining token goes to positional handling with the lookahead
      switched off. */
    method ParseAfterEnd(argv: seq<string>, end: nat) returns (r: Result<()>)
      modifies this
      requires Valid() && end < |argv|
      ensures Valid() && binaryName == old(binaryName) && version == old(version)
      ensures (isHelpException, isVersionException) == old((isHelpException, isVersionException))
      ensures FollowsWalk(AfterEnd(old(Snapshot()), argv, end), r, Snapshot())
    {
      ghost var target := AfterEnd(Snapshot(), argv, end);
      var i := end + 1;
      while i < |argv|
        invariant 1 <= i <= |argv|
        invariant Valid() && binaryName == old(binaryName) && version == old(version)
        invariant (isHelpException, isVersionException) == old((isHelpException, isVersionException))
        invariant target == AfterEnd(Snapshot(), argv, i - 1)
        decreases |argv| - i
      {
        var next := ParsePastEnd(argv, i, target);
        if next.Err? {
          return Err(next.error);
        }
        i := next.value + 1;
      }
      AfterEndDone(Snapshot(), argv, i - 1);
      r := Ok(());
    }

    /** One token of the loop of `parseArguments` before `--`; returns the
      new cursor. */
    method ParseToken(argv: seq<string>, e: nat, i: nat) returns (r: Result<nat>)
      modifies this
      requires Valid() && EndMarkerAt(argv, e) && i < e
      ensures Valid() && binaryName == old(binaryName) && version == old(version)
      ensures (isHelpException, isVersionException) == old((isHelpException, isVersionException))
      ensures Follows(TokenSpec(old(Snapshot()), argv, e, i), r, Snapshot())
    {
      if IsShortOption(argv[i]) {
        r := ParseShortArgument(argv, e, i);
      } else if IsLongOption(argv[i]) {
        r := ParseLongArgument(argv, e, i);
      } else {
        r := ParsePositionalArgument(argv, e, i, false);
      }
    }

    /** One token of the loop of `parseArguments` before `--`, stated
      against the rest of that loop: `target` is where the loop ends from
      cursor `i`. */
    method WalkToken(argv: seq<string>, e: nat, i: nat, ghost target: Result<State>) returns (r: Result<nat>)
      modifies this
      requires Valid() && EndMarkerAt(argv, e) && i < e && !IsEndOption(argv[i])
      requires target == WalkFrom(Snapshot(), argv, e, i)
      ensures Valid() && binaryName == old(binaryName) && version == old(version)
      ensures (isHelpException, isVersionException) == old((isHelpException, isVersionException))
      ensures r.Err? ==> target == Err(r.error)
      ensures r.Ok? ==> i <= r.value < e && target == WalkFrom(Snapshot(), argv, e, r.value + 1)
    {
      ghost var s := Snapshot();
      r := ParseToken(argv, e, i);
      WalkFollowsToken(s, argv, e, i, r, Snapshot());
    }

    /** The token loop of `parseArguments`; `e` is the position of the
      first `--` (or the end of the vector). */
    method Walk(argv: seq<string>, e: nat) returns (r: Result<()>)
      modifies this
      requires Valid() && EndMarkerAt(argv, e) && 1 <= e
      ensures Valid() && binaryName == old(binaryName) && version == old(version)
      ensures (isHelpException, isVersionException) == old((isHelpException, isVersionException))
      ensures FollowsWalk(WalkFrom(old(Snapshot()), argv, e, 1), r, Snapshot())
    {
      ghost var target := WalkFrom(Snapshot(), argv, e, 1);
      var i := 1;
      while i < |argv|
        invariant 1 <= i <= e
        invariant Valid() && binaryName == old(binaryName) && version == old(version)
        invariant (isHelpException, isVersionException) == old((isHelpException, isVersionException))
        invariant target == WalkFrom(Snapshot(), argv, e, i)
        decreases |argv| - i
      {
        if IsEndOption(argv[i]) {
          WalkFromEnd(Snapshot(), argv, e, i);
          r := ParseAfterEnd(argv, i);
          return;
        }
        var next := WalkToken(argv, e, i, target);
        if next.Err? {
          return Err(next.error);
        }
        i := next.value + 1;
      }
      r := Ok(());
    }

    /** The required check of `parseArguments`, along the list. */
    method CheckRequired() returns (r: Result<seq<Argument>>)
      requires Indexed(Snapshot())
      ensures r == RequiredCheck(arguments, order)
    {
      var j := 0;
      while j < |order|
        invariant 0 <= j <= |order|
        invariant forall i :: 0 <= i < j ==> !arguments[order[i]].isRequired || arguments[order[i]].isExist
      {
        var a := arguments[order[j]];
        if a.isRequired && !a.isExist {
          assert FirstMissing(arguments, order) == j;
          if a.argType == PositionalArgument {
            return Err(RequiredError(Front(a), "argument is required"));
          }
          return Err(RequiredError(Front(a), "option is required"));
        }
        j := j + 1;
      }
      r := Ok(arguments);
    }

    /** The validator pass on one declaration: runs its validator on the
      flat list of its values and writes the list it gets back into it. */
    method ValidateArgument(a: Argument) returns (r: Result<Argument>)
      requires WellFormed(a)
      ensures r == ValidateOne(helpers, a)
    {
      if !a.isExist || a.valid.None? {
        return Ok(a);
      }
      var values := ValidationValues(a);
      var check: Check;
      match a.valid.value {
        case Choices(choices) =>
          check := ChoiceIsValid(choices, values);
        case MinMax(_, _) =>
          check := MinMaxIsValid(a.valid.value, helpers.strToNumber, helpers.numberToStr, values);
        case Custom(id) =>
          check := helpers.customValid(id, values);
      }
      if check.Rejected? {
        return Err(ValidError(Front(a), check.message));
      }
      if !check.ok {
        return Err(ValidError(Front(a), "invalid check function"));
      }
      if IsScalar(a.argType) {
        r := Ok(if check.values != [] then a.(argument := check.values[0]) else a);
      } else if IsFlatValued(a.argType) {
        var es := WriteTextsLoop(a.elems, check.values);
        r := Ok(a.(elems := es));
      } else if IsGroupValued(a.argType) {
        var es := WriteGroupsLoop(a.elems, check.values);
        r := Ok(a.(elems := es));
      } else {
        r := Err(ValidError(Front(a), "invalid type option for use valid"));
      }
    }

    /** The validator loop of `parseArguments`, along the list `order`,
      on the declarations it is given. */
    method ValidateList(args0: seq<Argument>, order: seq<nat>) returns (r: Result<seq<Argument>>)
      requires HandlesBelow(order, |args0|)
      requires forall d :: 0 <= d < |args0| ==> WellFormed(args0[d])
      ensures r == ValidateFrom(helpers, args0, order, 0)
    {
      var args := args0;
      var j := 0;
      while j < |order|
        invariant 0 <= j <= |order| && |args| == |args0|
        invariant forall d :: 0 <= d < |args| ==> WellFormed(args[d])
        invariant ValidateFrom(helpers, args0, order, 0) == ValidateFrom(helpers, args, order, j)
      {
        ValidateFromStep(helpers, args, order, j);
        var b :- ValidateArgument(args[order[j]]);
        args := args[order[j] := b];
        j := j + 1;
      }
      r := Ok(args);
    }

    /** The validator pass of `parseArguments` on the registry: the
      declarations are replaced by their checked versions. */
    method ValidateAll() returns (r: Result<()>)
      modifies this
      requires Valid()
      ensures Valid() && binaryName == old(binaryName) && version == old(version)
      ensures (isHelpException, isVersionException) == old((isHelpException, isVersionException))
      ensures order == old(order) && argumentFromName == old(argumentFromName)
      ensures additionalArguments == old(additionalArguments)
      ensures isAlternative == old(isAlternative) && isStrict == old(isStrict)
      ensures ValidateFrom(helpers, old(arguments), order, 0).Err? ==>
                r == Err(ValidateFrom(helpers, old(arguments), order, 0).error)
      ensures ValidateFrom(helpers, old(arguments), order, 0).Ok? ==>
                r == Ok(()) && arguments == ValidateFrom(helpers, old(arguments), order, 0).value
    {
      ghost var s := Snapshot();
      var validated := ValidateList(arguments, order);
      if validated.Err? {
        return Err(validated.error);
      }
      arguments := validated.value;
      assert SameDeclarations(s, Snapshot());
      SameDeclarationsKeepNames(s, Snapshot());
      r := Ok(());
    }

    /** What `parseArguments` does after the walk. A present help or
      version flag ends it with the matching outcome, where the library
      prints and exits. */
    method Finish() returns (r: Result<Outcome>)
      modifies this
      requires Valid()
      ensures Valid() && binaryName == old(binaryName) && version == old(version)
      ensures (isHelpException, isVersionException) == old((isHelpException, isVersionException))
      ensures Concludes(FinishSpec(helpers, old(Snapshot())), r, Snapshot())
    {
      if ActionSeen(arguments, HelpAction) {
        return Ok(HelpRequested);
      }
      if ActionSeen(arguments, VersionAction) {
        return Ok(VersionRequested);
      }
      var required := CheckRequired();
      if required.Err? {
        return Err(required.error);
      }
      var validated := ValidateAll();
      if validated.Err? {
        return Err(validated.error);
      }
      r := Ok(Parsed);
    }

    /** `parseArguments(argc, argv, alternative, strict)`. */
    method ParseArguments(argv: seq<string>, alternative: bool, strict: bool) returns (r: Result<Outcome>)
      modifies this
      requires Valid() && |argv| >= 1
      ensures Valid() && binaryName == argv[0] && version == old(version)
      ensures (isHelpException, isVersionException) == old((isHelpException, isVersionException))
      ensures Concludes(ParseSpec(helpers, old(Snapshot()), argv, alternative, strict), r, Snapshot())
    {
      binaryName := argv[0];
      isAlternative := alternative;
      isStrict := strict;
      var walked := Walk(argv, EndOptionIndex(argv));
      if walked.Err? {
        return Err(walked.error);
      }
      r := Finish();
    }
  }
}
