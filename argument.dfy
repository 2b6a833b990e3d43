/**
  One argument declaration (`Argument`, itself an `ArgumentElement`): its
  names or flags, its arity class, its parse state and its values, the fluent
  setters that configure it, and the read-only views of its values.
 */
module Arguments {
  import opened Exceptions
  import opened Tokens
  import opened Validators

  /** One stored value. The library's `ArgumentElement` is a vector of itself
      but is never nested deeper than this: a value is a single string, or a
      group of strings (one occurrence of a multi-number option). */
  datatype Elem = Leaf(text: string) | Group(items: seq<string>)

  /** The element's own `_argument`: a group's is the empty string. */
  function ElemText(e: Elem): string {
    match e
    case Leaf(s) => s
    case Group(_) => ""
  }

  /** The element's sub-elements: a leaf has none. */
  function Children(e: Elem): seq<string> {
    match e
    case Leaf(_) => []
    case Group(g) => g
  }

  /** The closed arity enumeration `Argument::Type`. */
  datatype ArgType =
    | NoType
    | HelpOption
    | VersionOption
    | BooleanOption
    | ReverseBooleanOption
    | SimpleOption
    | NumberOption
    | InfiniteOption
    | MultiOption
    | MultiInfiniteOption
    | MultiNumberOption
    | MultiNumberInfiniteOption
    | PositionalArgument
    | NumberPositionalArgument
    | InfinitePositionalArgument
    | InfiniteNumberPositionalArgument

  /** The actions an argument can trigger. */
  datatype Action = NoAction | HelpAction | VersionAction

  datatype Argument = Argument(
    nameOrFlags: seq<string>,
    argType: ArgType,
    isExist: bool,
    isRequired: bool,
    count: nat,
    nargs: nat,
    help: string,
    metavar: string,
    valid: Option<Validator>,
    validDeletable: bool,
    action: Action,
    defaults: seq<string>,
    argument: string,
    elems: seq<Elem>,
    isNumber: bool,
    number: real)

  /** What the arity class is derived from (`nargs()`, `action()` and the
      declaration's names and defaults). */
  datatype Config = Config(nameOrFlags: seq<string>, nargs: nat, action: Action, defaults: seq<string>)

  function ConfigOf(a: Argument): Config {
    Config(a.nameOrFlags, a.nargs, a.action, a.defaults)
  }

  /** The value fields `_defaultsConstructor` fills in. */
  datatype Value = Value(argument: string, elems: seq<Elem>)

  /** The helpers whose bodies are kept elsewhere in the library, as
      functions supplied from outside: `_typeConstructor`,
      `_defaultsConstructor`, `_sortNameOrFlags`, `validFormatFlag` and the
      registry's `validFlag` (the exception each throws, if any; `validFlag`
      also sees the registered names), the list sort `compareOption` drives
      (as the new order of the declarations' handles), user validators, and
      the stream conversions of a double used by `ValidMinMax`. */
  datatype Helpers = Helpers(
    typeConstructor: Config -> ArgType,
    defaultsConstructor: (ArgType, Config) -> Value,
    sortNameOrFlags: seq<string> -> seq<string>,
    sortOrder: (seq<Argument>, seq<nat>) -> seq<nat>,
    validFormatFlag: string -> Option<Failure>,
    validFlag: (set<string>, string) -> Option<Failure>,
    customValid: (nat, seq<string>) -> Check,
    strToNumber: string -> Option<real>,
    numberToStr: real -> string)

  /** The arity classes whose consumption loops step by `nargs`. */
  predicate StepsByNargs(t: ArgType) {
    t == MultiNumberInfiniteOption || t == NumberPositionalArgument || t == InfiniteNumberPositionalArgument
  }

  /** What the model assumes of the helpers: the type derivation only picks
      a class that steps by `nargs` when `nargs` is at least 1 (otherwise the
      parser's loops would not advance), sorting the flags keeps them, and
      sorting the list only reorders it. */
  ghost predicate HelpersOk(h: Helpers) {
    && (forall c :: StepsByNargs(h.typeConstructor(c)) ==> c.nargs >= 1)
    && (forall s :: multiset(h.sortNameOrFlags(s)) == multiset(s))
    && (forall args: seq<Argument>, order: seq<nat> :: multiset(h.sortOrder(args, order)) == multiset(order))
  }

  /** A declaration the parser can work on. */
  predicate WellFormed(a: Argument) {
    |a.nameOrFlags| > 0 && (StepsByNargs(a.argType) ==> a.nargs >= 1)
  }

  /** The name or flag exceptions are reported with. */
  function Front(a: Argument): string
    requires |a.nameOrFlags| > 0
  {
    a.nameOrFlags[0]
  }

  /** `Argument(Argparsor&)`: a fresh declaration. */
  function NewArgument(): (a: Argument)
    ensures a.argType == NoType && !a.isExist && !a.isRequired
    ensures a.count == 0 && a.nargs == 0 && a.valid == None
    ensures a.nameOrFlags == [] && a.elems == [] && a.defaults == [] && a.action == NoAction
  {
    Argument([], NoType, false, false, 0, 0, "", "", None, true, NoAction, [], "", [], false, 0.0)
  }

  /** The copy constructor: every field but the defaults, which start empty. */
  function Copy(a: Argument): (r: Argument)
    ensures r.defaults == []
    ensures r.(defaults := a.defaults) == a
  {
    a.(defaults := [])
  }

  /** `_isPositionnalArgument`. */
  predicate IsPositional(t: ArgType) {
    t == PositionalArgument || t == NumberPositionalArgument
    || t == InfinitePositionalArgument || t == InfiniteNumberPositionalArgument
  }

  lemma PositionalTypesAreFour(t: ArgType)
    ensures IsPositional(t) <==> t in {PositionalArgument, NumberPositionalArgument,
                                       InfinitePositionalArgument, InfiniteNumberPositionalArgument}
  {
  }

  /** `operator bool`. */
  function AsBool(a: Argument): (b: bool)
    ensures a.argType == ReverseBooleanOption ==> b == !a.isExist
    ensures a.argType != ReverseBooleanOption ==> b == a.isExist
  {
    if a.argType == ReverseBooleanOption then !a.isExist else a.isExist
  }

  /** `boolTo` into a string. */
  function BoolTo(b: bool): (s: string)
    ensures b ==> s == "true"
    ensures !b ==> s == "false"
  {
    if b then "true" else "false"
  }

  /** `getNumber`. */
  function GetNumber(a: Argument): (r: Result<real>)
    ensures a.isNumber <==> r.Ok?
    ensures r.Ok? ==> r.value == a.number
    ensures r.Err? ==> r.error == GenericError("is not a number")
  {
    if a.isNumber then Ok(a.number) else Err(GenericError("is not a number"))
  }

  /** How `getString` writes one element: a group in parentheses. */
  function Render(e: Elem): string {
    if Children(e) != [] then "(" + Join(Children(e), ", ") + ")" else ElemText(e)
  }

  function RenderAll(es: seq<Elem>): (r: seq<string>)
    ensures |r| == |es|
    ensures forall i :: 0 <= i < |es| ==> r[i] == Render(es[i])
  {
    seq(|es|, i requires 0 <= i < |es| => Render(es[i]))
  }

  /** `getString`: booleans as "true"/"false", a list joined with ", ",
      otherwise the scalar value. */
  function GetString(a: Argument): string {
    if a.argType == BooleanOption then (if a.isExist then "true" else "false")
    else if a.argType == ReverseBooleanOption then (if a.isExist then "false" else "true")
    else if a.elems != [] then Join(RenderAll(a.elems), ", ")
    else a.argument
  }

  /** For both boolean classes the text agrees with `operator bool`. */
  lemma GetStringOfBoolean(a: Argument)
    requires a.argType == BooleanOption || a.argType == ReverseBooleanOption
    ensures GetString(a) == BoolTo(AsBool(a))
  {
  }

  function Concat(ss: seq<seq<string>>): seq<string>
    decreases |ss|
  {
    if |ss| == 0 then [] else ss[0] + Concat(ss[1..])
  }

  lemma ConcatSnoc(ss: seq<seq<string>>, s: seq<string>)
    ensures Concat(ss + [s]) == Concat(ss) + s
    decreases |ss|
  {
    if |ss| > 0 {
      assert (ss + [s])[1..] == ss[1..] + [s];
      ConcatSnoc(ss[1..], s);
    }
  }

  function Texts(es: seq<Elem>): (r: seq<string>)
    ensures |r| == |es|
    ensures forall i :: 0 <= i < |es| ==> r[i] == ElemText(es[i])
  {
    seq(|es|, i requires 0 <= i < |es| => ElemText(es[i]))
  }

  function ChildLists(es: seq<Elem>): (r: seq<seq<string>>)
    ensures |r| == |es|
    ensures forall i :: 0 <= i < |es| ==> r[i] == Children(es[i])
  {
    seq(|es|, i requires 0 <= i < |es| => Children(es[i]))
  }

  /** The items of the groups one after the other. */
  function Items(es: seq<Elem>): seq<string>
    decreases |es|
  {
    if |es| == 0 then [] else Children(es[0]) + Items(es[1..])
  }

  lemma {:induction false} ItemsIsConcat(es: seq<Elem>)
    ensures Items(es) == Concat(ChildLists(es))
    decreases |es|
  {
    if |es| > 0 {
      assert ChildLists(es)[1..] == ChildLists(es[1..]);
      ItemsIsConcat(es[1..]);
    }
  }

  predicate IsFlatList(t: ArgType) {
    t == NumberOption || t == MultiOption || t == InfiniteOption || t == MultiInfiniteOption
  }

  predicate IsGroupList(t: ArgType) {
    t == MultiNumberOption || t == MultiNumberInfiniteOption
  }

  /** Conversion to `vector<string>`. */
  function ToStrings(a: Argument): (r: Result<seq<string>>)
    ensures r.Ok? <==> IsFlatList(a.argType) || IsGroupList(a.argType)
  {
    if IsFlatList(a.argType) then Ok(Texts(a.elems))
    else if IsGroupList(a.argType) then Ok(Items(a.elems))
    else Err(GenericError("convertion to vector of string not authorized"))
  }

  /** Conversion to `vector<vector<string>>`. */
  function ToStringGroups(a: Argument): (r: Result<seq<seq<string>>>)
    ensures r.Ok? <==> IsGroupList(a.argType)
    ensures r.Ok? ==> |r.value| == |a.elems|
  {
    if IsGroupList(a.argType) then Ok(ChildLists(a.elems))
    else Err(GenericError("convertion to vector of vector of string not authorized"))
  }

  /** The two conversions of a multi-number argument agree: the flat one is
      the groups one after the other. */
  lemma GroupsFlattenToStrings(a: Argument)
    requires IsGroupList(a.argType)
    ensures ToStrings(a).Ok? && ToStringGroups(a).Ok?
    ensures Concat(ToStringGroups(a).value) == ToStrings(a).value
    ensures forall i :: 0 <= i < |a.elems| ==> ToStringGroups(a).value[i] == Children(a.elems[i])
  {
    ItemsIsConcat(a.elems);
  }

  /** `ArgumentElement` to `vector<string>`: only a non-empty group converts. */
  function ElemToStrings(e: Elem): (r: Result<seq<string>>)
    ensures r.Ok? <==> Children(e) != []
    ensures r.Ok? ==> r.value == Children(e)
  {
    if Children(e) != [] then Ok(Children(e))
    else Err(GenericError("convertion to vector of string not authorized"))
  }

  /** Every group of a multi-number argument converts on its own to the
      corresponding inner list of the whole argument's conversion. */
  lemma ElemConversionMatchesGroups(a: Argument, i: nat)
    requires IsGroupList(a.argType) && i < |a.elems| && Children(a.elems[i]) != []
    ensures ElemToStrings(a.elems[i]) == Ok(ToStringGroups(a).value[i])
  {
  }

  /** What `getString` writes for a list of single strings is that list,
      as converted to `vector<string>`, joined with ", ". */
  lemma {:induction false} GetStringOfFlatList(a: Argument)
    requires IsFlatList(a.argType) && a.elems != []
    requires forall i :: 0 <= i < |a.elems| ==> a.elems[i].Leaf?
    ensures GetString(a) == Join(ToStrings(a).value, ", ")
  {
    assert RenderAll(a.elems) == Texts(a.elems);
  }

  /** Each group in parentheses with its items joined by ", ". */
  function Parenthesized(gs: seq<seq<string>>): (r: seq<string>)
    ensures |r| == |gs|
    ensures forall i :: 0 <= i < |gs| ==> r[i] == "(" + Join(gs[i], ", ") + ")"
  {
    seq(|gs|, i requires 0 <= i < |gs| => "(" + Join(gs[i], ", ") + ")")
  }

  /** What `getString` writes for a list of groups is the vector-of-vectors
      conversion with each group in parentheses, joined by ", ". */
  lemma GetStringOfGroups(a: Argument)
    requires IsGroupList(a.argType) && a.elems != []
    requires forall i :: 0 <= i < |a.elems| ==> Children(a.elems[i]) != []
    ensures GetString(a) == Join(Parenthesized(ToStringGroups(a).value), ", ")
  {
    assert RenderAll(a.elems) == Parenthesized(ToStringGroups(a).value);
  }

  /** With no elements, `getString` of any non-boolean class is the scalar
      value. */
  lemma GetStringOfScalar(a: Argument)
    requires a.argType != BooleanOption && a.argType != ReverseBooleanOption && a.elems == []
    ensures GetString(a) == a.argument
  {
  }

  /** How a custom `_toDest` sees one element: a group's items, otherwise
      the element's own text. */
  function DestItems(e: Elem): seq<string> {
    if Children(e) != [] then Children(e) else [ElemText(e)]
  }

  function DestItemLists(es: seq<Elem>): (r: seq<seq<string>>)
    ensures |r| == |es|
    ensures forall i :: 0 <= i < |es| ==> r[i] == DestItems(es[i])
  {
    seq(|es|, i requires 0 <= i < |es| => DestItems(es[i]))
  }

  /** The list a custom converter of `ArgumentVectorType` receives. */
  function DestStrings(a: Argument): seq<string> {
    if a.elems != [] then Concat(DestItemLists(a.elems)) else [a.argument]
  }

  /** The list of lists a custom converter of `ArgumentVectorVectorType` receives. */
  function DestGroups(a: Argument): seq<seq<string>> {
    if a.elems != [] then DestItemLists(a.elems) else [[a.argument]]
  }

  /** The flat destination is the grouped destination read in order; with
      no elements it is the scalar value alone. */
  lemma DestStringsFlattenGroups(a: Argument)
    ensures DestStrings(a) == Concat(DestGroups(a))
    ensures a.elems == [] ==> DestStrings(a) == [a.argument]
    ensures |DestGroups(a)| == if a.elems == [] then 1 else |a.elems|
  {
    if a.elems == [] {
      assert Concat([[a.argument]]) == [a.argument] + Concat([]);
    }
  }

  /** With single-string elements the custom converter receives exactly the
      `vector<string>` conversion. */
  lemma {:induction false} DestStringsOfFlatList(a: Argument)
    requires IsFlatList(a.argType) && a.elems != []
    requires forall i :: 0 <= i < |a.elems| ==> a.elems[i].Leaf?
    ensures DestStrings(a) == ToStrings(a).value
  {
    ConcatOfSingletons(a.elems);
  }

  lemma {:induction false} ConcatOfSingletons(es: seq<Elem>)
    requires forall i :: 0 <= i < |es| ==> es[i].Leaf?
    ensures Concat(DestItemLists(es)) == Texts(es)
    decreases |es|
  {
    if |es| > 0 {
      ConcatOfSingletons(es[1..]);
      assert DestItemLists(es)[1..] == DestItemLists(es[1..]);
      assert Texts(es) == [ElemText(es[0])] + Texts(es[1..]);
    }
  }

  /** The list a custom converter of `ArgumentVectorType` receives, built
      with the nested loops of `_toDest`. */
  method DestArguments(a: Argument) returns (arguments: seq<string>)
    ensures arguments == DestStrings(a)
  {
    if a.elems == [] {
      return [a.argument];
    }
    arguments := [];
    var i := 0;
    while i < |a.elems|
      invariant 0 <= i <= |a.elems|
      invariant arguments == Concat(DestItemLists(a.elems[..i]))
    {
      var e := a.elems[i];
      var done := arguments;
      if Children(e) != [] {
        var j := 0;
        while j < |Children(e)|
          invariant 0 <= j <= |Children(e)|
          invariant arguments == done + Children(e)[..j]
        {
          arguments := arguments + [Children(e)[j]];
          j := j + 1;
        }
        assert Children(e)[..j] == Children(e);
      } else {
        arguments := arguments + [ElemText(e)];
      }
      assert DestItemLists(a.elems[..i + 1]) == DestItemLists(a.elems[..i]) + [DestItems(e)];
      ConcatSnoc(DestItemLists(a.elems[..i]), DestItems(e));
      i := i + 1;
    }
    assert a.elems[..i] == a.elems;
  }

  /** The classes the validator pass converts and writes back element by
      element, and those whose groups it walks in nested order. */
  predicate IsScalar(t: ArgType) {
    t == PositionalArgument || t == SimpleOption
  }

  predicate IsFlatValued(t: ArgType) {
    IsFlatList(t) || t == NumberPositionalArgument || t == InfinitePositionalArgument
  }

  predicate IsGroupValued(t: ArgType) {
    IsGroupList(t) || t == InfiniteNumberPositionalArgument
  }

  /** The values the validator pass hands to a validator: the
      `vector<string>` conversion, extended to the positional classes and to
      SIMPLE (whose single value is `_argument`); the other classes give an
      empty list. */
  function ValidationValues(a: Argument): (r: seq<string>)
    ensures IsFlatList(a.argType) || IsGroupList(a.argType) ==> r == ToStrings(a).value
  {
    if IsScalar(a.argType) then [a.argument]
    else if IsFlatValued(a.argType) then Texts(a.elems)
    else if IsGroupValued(a.argType) then Items(a.elems)
    else []
  }

  /** Assigning an element's own `_argument` (a group's own text is not
      modelled). */
  function SetText(e: Elem, v: string): Elem {
    match e
    case Leaf(_) => Leaf(v)
    case Group(g) => Group(g)
  }

  function SetChildren(e: Elem, items: seq<string>): Elem {
    match e
    case Leaf(s) => Leaf(s)
    case Group(_) => Group(items)
  }

  /** Element `i` takes value `i`, for as many as both lists have. */
  function WriteTexts(es: seq<Elem>, vals: seq<string>): (r: seq<Elem>)
    ensures |r| == |es|
    ensures forall i :: 0 <= i < |es| ==> r[i] == if i < |vals| then SetText(es[i], vals[i]) else es[i]
  {
    seq(|es|, i requires 0 <= i < |es| => if i < |vals| then SetText(es[i], vals[i]) else es[i])
  }

  function Min(x: nat, y: nat): nat {
    if x <= y then x else y
  }

  /** The items of the groups take the values in nested order, group after
      group, until the values run out. */
  function WriteGroups(es: seq<Elem>, vals: seq<string>): (r: seq<Elem>)
    ensures |r| == |es|
    decreases |es|
  {
    if |es| == 0 then []
    else
      var n := Min(|Children(es[0])|, |vals|);
      [SetChildren(es[0], vals[..n] + Children(es[0])[n..])] + WriteGroups(es[1..], vals[n..])
  }

  /** The write-back of the validator pass. */
  function WriteBack(a: Argument, vals: seq<string>): (r: Result<Argument>)
    ensures r.Ok? <==> IsScalar(a.argType) || IsFlatValued(a.argType) || IsGroupValued(a.argType)
    ensures r.Ok? ==> r.value == a.(argument := r.value.argument, elems := r.value.elems)
    ensures r.Err? ==> r.error == ValidError("", "invalid type option for use valid")
  {
    if IsScalar(a.argType) then Ok(if vals != [] then a.(argument := vals[0]) else a)
    else if IsFlatValued(a.argType) then Ok(a.(elems := WriteTexts(a.elems, vals)))
    else if IsGroupValued(a.argType) then Ok(a.(elems := WriteGroups(a.elems, vals)))
    else Err(ValidError("", "invalid type option for use valid"))
  }

  /** The first group takes its whole size in values when enough remain. */
  lemma WriteGroupsHead(es: seq<Elem>, vals: seq<string>)
    requires |es| > 0 && |Children(es[0])| <= |vals|
    ensures WriteGroups(es, vals) ==
              [SetChildren(es[0], vals[..|Children(es[0])|])] + WriteGroups(es[1..], vals[|Children(es[0])|..])
  {
    var c := Children(es[0]);
    assert Min(|c|, |vals|) == |c|;
    assert vals[..|c|] + c[|c|..] == vals[..|c|];
  }

  /** The items of a non-empty group list: those of the first group, then
      the others'. */
  lemma ItemsHead(es: seq<Elem>)
    requires |es| > 0
    ensures Items(es)[..|Children(es[0])|] == Children(es[0])
    ensures Items(es)[|Children(es[0])|..] == Items(es[1..])
  {
  }

  lemma {:induction false} WriteGroupsOwnValues(es: seq<Elem>)
    ensures WriteGroups(es, Items(es)) == es
    decreases |es|
  {
    if |es| > 0 {
      ItemsHead(es);
      WriteGroupsHead(es, Items(es));
      WriteGroupsOwnValues(es[1..]);
      assert SetChildren(es[0], Children(es[0])) == es[0];
      assert es == [es[0]] + es[1..];
    }
  }

  /** Writing back unchanged values leaves every writable argument as it was. */
  lemma WriteBackOwnValues(a: Argument)
    requires IsScalar(a.argType) || IsFlatValued(a.argType) || IsGroupValued(a.argType)
    ensures WriteBack(a, ValidationValues(a)) == Ok(a)
  {
    if IsFlatValued(a.argType) {
      assert WriteTexts(a.elems, Texts(a.elems)) == a.elems;
    } else if IsGroupValued(a.argType) {
      WriteGroupsOwnValues(a.elems);
    }
  }

  lemma {:induction false} WriteGroupsReadBack(es: seq<Elem>, vals: seq<string>)
    requires |vals| == |Items(es)|
    ensures Items(WriteGroups(es, vals)) == vals
    decreases |es|
  {
    if |es| > 0 {
      var n := |Children(es[0])|;
      ItemsOfFront(es[0], es[1..]);
      assert [es[0]] + es[1..] == es;
      var rest := vals[n..];
      WriteGroupsHead(es, vals);
      WriteGroupsReadBack(es[1..], rest);
      var head := SetChildren(es[0], vals[..n]);
      assert Children(head) == vals[..n] by {
        if es[0].Leaf? {
          assert n == 0;
        }
      }
      ItemsOfFront(head, WriteGroups(es[1..], rest));
      assert vals[..n] + rest == vals;
    }
  }

  lemma ItemsOfFront(head: Elem, tail: seq<Elem>)
    ensures Items([head] + tail) == Children(head) + Items(tail)
  {
    assert ([head] + tail)[1..] == tail;
  }

  /** The validated values land in the argument in the order they were
      taken out of it: flattening after the write-back gives them back. */
  lemma WriteBackReadBack(a: Argument, vals: seq<string>)
    requires IsScalar(a.argType) || IsFlatValued(a.argType) || IsGroupValued(a.argType)
    requires |vals| == |ValidationValues(a)|
    requires IsFlatValued(a.argType) ==> forall i :: 0 <= i < |a.elems| ==> a.elems[i].Leaf?
    ensures ValidationValues(WriteBack(a, vals).value) == vals
  {
    if IsGroupValued(a.argType) {
      WriteGroupsReadBack(a.elems, vals);
    } else if IsFlatValued(a.argType) {
      assert Texts(WriteTexts(a.elems, vals)) == vals;
    }
  }

  /** `_typeConstructor(); _defaultsConstructor();` */
  function Rederive(h: Helpers, a: Argument): Argument {
    var t := h.typeConstructor(ConfigOf(a));
    var v := h.defaultsConstructor(t, ConfigOf(a));
    a.(argType := t, argument := v.argument, elems := v.elems)
  }

  /** The value fields are what `_defaultsConstructor` builds for the
      declaration's class and configuration. */
  predicate HoldsDefaults(h: Helpers, a: Argument) {
    var v := h.defaultsConstructor(a.argType, ConfigOf(a));
    a.argument == v.argument && a.elems == v.elems
  }

  /** `help(s)`. */
  function WithHelp(a: Argument, s: string): (r: Argument)
    ensures r.help == s && r.(help := a.help) == a
  {
    a.(help := s)
  }

  /** `metavar(s)`. */
  function WithMetavar(a: Argument, s: string): (r: Argument)
    ensures r.metavar == s && r.(metavar := a.metavar) == a
  {
    a.(metavar := s)
  }

  /** `required(b)`. */
  function WithRequired(a: Argument, b: bool): (r: Argument)
    ensures r.isRequired == b && r.(isRequired := a.isRequired) == a
  {
    a.(isRequired := b)
  }

  /** `nargs(n)`: stores the count, then re-derives the class and the values. */
  function WithNargs(h: Helpers, a: Argument, n: nat): (r: Argument)
    ensures r.nargs == n
    ensures r.argType == h.typeConstructor(Config(a.nameOrFlags, n, a.action, a.defaults))
    ensures r.(argType := a.argType, argument := a.argument, elems := a.elems, nargs := a.nargs) == a
    ensures HoldsDefaults(h, r)
  {
    Rederive(h, a.(nargs := n))
  }

  /** `action(act)`: stores the action, then re-derives the class and the values. */
  function WithAction(h: Helpers, a: Argument, act: Action): (r: Argument)
    ensures r.action == act
    ensures r.argType == h.typeConstructor(Config(a.nameOrFlags, a.nargs, act, a.defaults))
    ensures r.(argType := a.argType, argument := a.argument, elems := a.elems, action := a.action) == a
    ensures HoldsDefaults(h, r)
  {
    Rederive(h, a.(action := act))
  }

  /** `defaults(d)`: stores the defaults, then re-derives the values. */
  function WithDefaults(h: Helpers, a: Argument, d: seq<string>): (r: Argument)
    ensures r.defaults == d && r.argType == a.argType
    ensures r.(argument := a.argument, elems := a.elems, defaults := a.defaults) == a
    ensures HoldsDefaults(h, r)
  {
    var v := h.defaultsConstructor(a.argType, Config(a.nameOrFlags, a.nargs, a.action, d));
    a.(defaults := d, argument := v.argument, elems := v.elems)
  }

  /** `valid(p, d)`: installs the validator and its ownership flag. */
  function WithValid(a: Argument, p: Option<Validator>, d: bool): (r: Argument)
    ensures r.valid == p && r.validDeletable == d
    ensures r.(valid := a.valid, validDeletable := a.validDeletable) == a
  {
    a.(valid := p, validDeletable := d)
  }

  /** The validator `valid(p, d)` deletes: the previous one, only if owned. */
  function Released(a: Argument): (r: Option<Validator>)
    ensures r.Some? <==> a.valid.Some? && a.validDeletable
    ensures r.Some? ==> r == a.valid
  {
    if a.valid.Some? && a.validDeletable then a.valid else None
  }

  /** The setters of the fluent interface, so that the registry can apply
      them to the declaration a handle designates. */
  datatype Setter =
    | SetHelp(text: string)
    | SetMetavar(text: string)
    | SetRequired(required: bool)
    | SetNargs(n: nat)
    | SetAction(act: Action)
    | SetDefaults(defaults: seq<string>)
    | SetValid(validator: Option<Validator>, deletable: bool)

  function ApplySetter(h: Helpers, a: Argument, s: Setter): (r: Argument)
    ensures r.nameOrFlags == a.nameOrFlags && r.isExist == a.isExist && r.count == a.count
    ensures HelpersOk(h) && WellFormed(a) ==> WellFormed(r)
    ensures s.SetAction? ==> r.action == s.act
    ensures s.SetHelp? ==> r == a.(help := s.text)
    ensures HoldsDefaults(h, a) || s.SetNargs? || s.SetAction? || s.SetDefaults? ==> HoldsDefaults(h, r)
  {
    match s
    case SetHelp(text) => WithHelp(a, text)
    case SetMetavar(text) => WithMetavar(a, text)
    case SetRequired(b) => WithRequired(a, b)
    case SetNargs(n) => WithNargs(h, a, n)
    case SetAction(act) => WithAction(h, a, act)
    case SetDefaults(d) => WithDefaults(h, a, d)
    case SetValid(p, d) => WithValid(a, p, d)
  }
}
