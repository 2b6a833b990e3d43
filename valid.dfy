/**
  The validators an argument can carry (`IValid` and its implementations
  `ValidChoise` and `ValidMinMax`). A validator receives the flat list of an
  argument's values and either accepts it, returns false, or throws a
  ParseArgumentValidException whose message the parser re-throws with the
  argument's name.
 */
module Validators {
  import opened Exceptions
  import opened Tokens

  /** A validator object. `Custom(id)` stands for any user-written `IValid`
      (and for `ValidPath`, whose check is a file-system call); what it does is
      supplied from outside the model. */
  datatype Validator =
    | Choices(choices: seq<string>)
    | MinMax(min: real, max: real)
    | Custom(id: nat)

  /** What one call of `isValid(arguments)` produces: its boolean result and
      the argument vector as the validator left it (the vector is passed by
      reference), or the message of the exception it threw. */
  datatype Check = Checked(ok: bool, values: seq<string>) | Rejected(message: string)

  /** `ValidMinMax(min, max)`: the bounds are stored in order. */
  function NewMinMax(min: real, max: real): (v: Validator)
    ensures v.MinMax? && v.min <= v.max
    ensures min <= max ==> v.min == min && v.max == max
    ensures min > max ==> v.min == max && v.max == min
  {
    if min > max then MinMax(max, min) else MinMax(min, max)
  }

  function Quoted(s: string): string {
    "\"" + s + "\""
  }

  function QuotedAll(items: seq<string>): (r: seq<string>)
    ensures |r| == |items|
    ensures forall i :: 0 <= i < |items| ==> r[i] == Quoted(items[i])
  {
    seq(|items|, i requires 0 <= i < |items| => Quoted(items[i]))
  }

  /** The list of choices as the message shows it: each quoted, ", " between. */
  function ChoiceList(choices: seq<string>): string {
    Join(QuotedAll(choices), ", ")
  }

  function NotAChoiceMessage(arg: string, choices: seq<string>): string {
    Quoted(arg) + " is not a choise value (" + ChoiceList(choices) + ")"
  }

  /** Index of the first argument that is not one of the choices, or `|args|`. */
  function FirstNotChoice(choices: seq<string>, args: seq<string>): (k: nat)
    ensures k <= |args|
    ensures k < |args| ==> args[k] !in choices
    ensures forall j :: 0 <= j < k ==> args[j] in choices
  {
    if |args| == 0 then 0
    else if args[0] !in choices then 0
    else 1 + FirstNotChoice(choices, args[1..])
  }

  /** `ValidChoise::isValid`: accepts when every argument is a choice, and
      otherwise throws about the first argument that is not. */
  function ChoiceCheck(choices: seq<string>, args: seq<string>): Check {
    var k := FirstNotChoice(choices, args);
    if k == |args| then Checked(true, args) else Rejected(NotAChoiceMessage(args[k], choices))
  }

  /** ChoiceCheck accepts exactly the lists made of choices, and then leaves
      the list as it was. */
  lemma ChoiceAcceptsExactly(choices: seq<string>, args: seq<string>)
    ensures ChoiceCheck(choices, args).Checked? <==> forall a :: a in args ==> a in choices
    ensures ChoiceCheck(choices, args).Checked? ==> ChoiceCheck(choices, args) == Checked(true, args)
  {
    var k := FirstNotChoice(choices, args);
    if k < |args| {
      assert args[k] in args;
    }
  }

  /** A rejection quotes the first argument that is not a choice. */
  lemma ChoiceRejectsFirst(choices: seq<string>, args: seq<string>)
    requires ChoiceCheck(choices, args).Rejected?
    ensures exists k ::
              && 0 <= k < |args| && args[k] !in choices
              && (forall j :: 0 <= j < k ==> args[j] in choices)
              && ChoiceCheck(choices, args).message == NotAChoiceMessage(args[k], choices)
  {
    var k := FirstNotChoice(choices, args);
    assert 0 <= k < |args| && args[k] !in choices;
  }

  /** The index that FirstNotChoice finds is pinned down by its two properties. */
  lemma FirstNotChoiceIs(choices: seq<string>, args: seq<string>, i: nat)
    requires i <= |args|
    requires forall j :: 0 <= j < i ==> args[j] in choices
    requires i < |args| ==> args[i] !in choices
    ensures FirstNotChoice(choices, args) == i
  {
  }

  lemma JoinSnoc(parts: seq<string>, x: string, sep: string)
    requires |parts| > 0
    ensures Join(parts + [x], sep) == Join(parts, sep) + sep + x
    decreases |parts|
  {
    if |parts| == 1 {
      assert parts + [x] == [parts[0], x];
    } else {
      assert (parts + [x])[1..] == parts[1..] + [x];
      JoinSnoc(parts[1..], x, sep);
    }
  }

  /** The choice list, built with a loop as the source does before checking. */
  method ChoiceListText(choices: seq<string>) returns (text: string)
    ensures text == ChoiceList(choices)
  {
    text := "";
    var i := 0;
    while i < |choices|
      invariant 0 <= i <= |choices|
      invariant text == Join(QuotedAll(choices[..i]), ", ")
    {
      assert QuotedAll(choices[..i + 1]) == QuotedAll(choices[..i]) + [Quoted(choices[i])];
      if i > 0 {
        JoinSnoc(QuotedAll(choices[..i]), Quoted(choices[i]), ", ");
        text := text + ", ";
      }
      text := text + Quoted(choices[i]);
      i := i + 1;
    }
    assert choices[..i] == choices;
  }

  /** `ValidChoise::isValid` with its two nested loops. */
  method ChoiceIsValid(choices: seq<string>, args: seq<string>) returns (r: Check)
    ensures r == ChoiceCheck(choices, args)
  {
    var list := ChoiceListText(choices);
    var i := 0;
    while i < |args|
      invariant 0 <= i <= |args|
      invariant forall m :: 0 <= m < i ==> args[m] in choices
    {
      var j := 0;
      while j < |choices| && args[i] != choices[j]
        invariant 0 <= j <= |choices|
        invariant forall m :: 0 <= m < j ==> choices[m] != args[i]
      {
        j := j + 1;
      }
      if j == |choices| {
        FirstNotChoiceIs(choices, args, i);
        return Rejected(Quoted(args[i]) + " is not a choise value (" + list + ")");
      }
      i := i + 1;
    }
    FirstNotChoiceIs(choices, args, i);
    r := Checked(true, args);
  }

  /** Whether a parsed number lies between the bounds of a MinMax validator. */
  predicate InRange(v: Validator, x: real)
    requires v.MinMax?
  {
    !(x < v.min || x > v.max)
  }

  /** Whether one argument passes `ValidMinMax`: it reads as a number (`parse`
      stands for the stream extraction of a double) and that number is in range. */
  predicate NumberOk(v: Validator, parse: string -> Option<real>, a: string)
    requires v.MinMax?
  {
    parse(a).Some? && InRange(v, parse(a).value)
  }

  /** Index of the first argument that fails `ValidMinMax`, or `|args|`. */
  function FirstBadNumber(v: Validator, parse: string -> Option<real>, args: seq<string>): (k: nat)
    requires v.MinMax?
    ensures k <= |args|
    ensures k < |args| ==> !NumberOk(v, parse, args[k])
    ensures forall j :: 0 <= j < k ==> NumberOk(v, parse, args[j])
  {
    if |args| == 0 then 0
    else if !NumberOk(v, parse, args[0]) then 0
    else 1 + FirstBadNumber(v, parse, args[1..])
  }

  /** `ValidMinMax::isValid`: accepts when every argument is a number in
      range, and otherwise throws about the first one that is not; `show`
      stands for the stream formatting of a double. */
  function MinMaxCheck(v: Validator, parse: string -> Option<real>, show: real -> string,
                       args: seq<string>): Check
    requires v.MinMax?
  {
    var k := FirstBadNumber(v, parse, args);
    if k == |args| then Checked(true, args)
    else if parse(args[k]).None? then Rejected(Quoted(args[k]) + " is not a number")
    else Rejected(args[k] + " is not between " + show(v.min) + " and " + show(v.max))
  }

  /** MinMaxCheck accepts exactly the lists of in-range numbers, leaving them
      as they were; a rejection names the first bad argument. */
  lemma MinMaxAcceptsExactly(v: Validator, parse: string -> Option<real>, show: real -> string,
                             args: seq<string>)
    requires v.MinMax?
    ensures MinMaxCheck(v, parse, show, args).Checked? <==>
      forall i :: 0 <= i < |args| ==> parse(args[i]).Some? && v.min <= parse(args[i]).value <= v.max
    ensures MinMaxCheck(v, parse, show, args).Checked? ==> MinMaxCheck(v, parse, show, args) == Checked(true, args)
    ensures MinMaxCheck(v, parse, show, args).Rejected? ==>
              exists k ::
                && 0 <= k < |args| && !NumberOk(v, parse, args[k])
                && forall j :: 0 <= j < k ==> NumberOk(v, parse, args[j])
  {
    var k := FirstBadNumber(v, parse, args);
    if k < |args| {
      assert !NumberOk(v, parse, args[k]);
    }
  }

  lemma FirstBadNumberIs(v: Validator, parse: string -> Option<real>, args: seq<string>, i: nat)
    requires v.MinMax?
    requires i <= |args|
    requires forall j :: 0 <= j < i ==> NumberOk(v, parse, args[j])
    requires i < |args| ==> !NumberOk(v, parse, args[i])
    ensures FirstBadNumber(v, parse, args) == i
  {
  }

  /** `ValidMinMax::isValid` with its loop and early exit. */
  method MinMaxIsValid(v: Validator, parse: string -> Option<real>, show: real -> string,
                       args: seq<string>) returns (r: Check)
    requires v.MinMax?
    ensures r == MinMaxCheck(v, parse, show, args)
  {
    var i := 0;
    while i < |args|
      invariant 0 <= i <= |args|
      invariant forall j :: 0 <= j < i ==> NumberOk(v, parse, args[j])
    {
      var number := parse(args[i]);
      if number.None? {
        FirstBadNumberIs(v, parse, args, i);
        return Rejected(Quoted(args[i]) + " is not a number");
      }
      if number.value < v.min || number.value > v.max {
        FirstBadNumberIs(v, parse, args, i);
        return Rejected(args[i] + " is not between " + show(v.min) + " and " + show(v.max));
      }
      i := i + 1;
    }
    FirstBadNumberIs(v, parse, args, i);
    r := Checked(true, args);
  }

  /** `_valid->isValid(arguments)`, dispatched on the validator's class. */
  function IsValid(v: Validator, custom: (nat, seq<string>) -> Check, parse: string -> Option<real>,
                   show: real -> string, args: seq<string>): Check
  {
    match v
    case Choices(choices) => ChoiceCheck(choices, args)
    case MinMax(_, _) => MinMaxCheck(v, parse, show, args)
    case Custom(id) => custom(id, args)
  }

  /** Neither built-in validator rewrites the list it is given, and both
      accept an empty list. */
  lemma BuiltinsKeepArguments(v: Validator, custom: (nat, seq<string>) -> Check,
                              parse: string -> Option<real>, show: real -> string, args: seq<string>)
    requires !v.Custom?
    ensures IsValid(v, custom, parse, show, args).Checked? ==> IsValid(v, custom, parse, show, args).values == args
    ensures args == [] ==> IsValid(v, custom, parse, show, args) == Checked(true, [])
  {
    if v.Choices? {
      ChoiceAcceptsExactly(v.choices, args);
    } else {
      MinMaxAcceptsExactly(v, parse, show, args);
    }
  }
}
