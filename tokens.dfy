/**
  The token classifier of the parser: which raw command-line tokens are short
  options, long options or the end-of-options marker, how an inline value is
  split off an option token, and where the marker sits in the argument vector.
  The library keeps these helpers out of the files modelled here, so each one
  gets the minimal definition its uses call for.
 */
module Tokens {

  /** `-x...`: one dash followed by a character that is not a dash. */
  predicate IsShortOption(t: string) {
    |t| >= 2 && t[0] == '-' && t[1] != '-'
  }

  /** `--x...`: two dashes followed by at least one more character. */
  predicate IsLongOption(t: string) {
    |t| >= 3 && t[0] == '-' && t[1] == '-'
  }

  /** Exactly `--`. */
  predicate IsEndOption(t: string) {
    t == "--"
  }

  lemma ClassesAreDisjoint(t: string)
    ensures !(IsShortOption(t) && IsLongOption(t))
    ensures !(IsShortOption(t) && IsEndOption(t))
    ensures !(IsLongOption(t) && IsEndOption(t))
  {
  }

  /** Position of the first `c` in `t`, or `|t|` when there is none. */
  function IndexOf(t: string, c: char): (k: nat)
    ensures k <= |t|
    ensures k < |t| ==> t[k] == c
    ensures forall j :: 0 <= j < k ==> t[j] != c
  {
    if |t| == 0 then 0
    else if t[0] == c then 0
    else 1 + IndexOf(t[1..], c)
  }

  /** What `takeArg` hands back: the option text with its dashes, the inline
      value and whether an inline value was present. */
  datatype Split = Split(option: string, arg: string, hasArg: bool)

  /** Splits an option token at its first `=`. */
  function TakeArg(t: string): (r: Split)
    ensures r.hasArg <==> '=' in t
    ensures '=' !in r.option
    ensures |r.option| <= |t| && r.option == t[..|r.option|]
    ensures !r.hasArg ==> r.option == t && r.arg == ""
    ensures r.hasArg ==> |r.option| < |t| && t[|r.option|] == '=' && r.arg == t[|r.option| + 1..]
  {
    var k := IndexOf(t, '=');
    if k < |t| then Split(t[..k], t[k + 1..], true) else Split(t, "", false)
  }

  /** The option part of a short option token keeps its dash. */
  lemma ShortOptionPart(t: string)
    requires IsShortOption(t)
    ensures |TakeArg(t).option| >= 1 && TakeArg(t).option[0] == '-'
  {
    var r := TakeArg(t);
    if r.hasArg {
      assert t[|r.option|] == '=';
    }
  }

  /** The option part of a long option token keeps both dashes. */
  lemma LongOptionPart(t: string)
    requires IsLongOption(t)
    ensures |TakeArg(t).option| >= 2 && TakeArg(t).option[..2] == "--"
  {
    var r := TakeArg(t);
    if r.hasArg {
      assert t[|r.option|] == '=';
    }
  }

  /** The token `TakeArg` took apart. */
  function Rejoin(s: Split): string {
    if s.hasArg then s.option + "=" + s.arg else s.option
  }

  /** TakeArg loses nothing: rejoining its parts gives the token back. */
  lemma TakeArgRejoin(t: string)
    ensures Rejoin(TakeArg(t)) == t
  {
    var k := IndexOf(t, '=');
    if k < |t| {
      assert t == t[..k] + "=" + t[k + 1..];
    }
  }

  /** An option without `=` followed by `=value` splits back into those parts. */
  lemma {:induction false} TakeArgOfJoined(option: string, value: string)
    requires '=' !in option
    ensures TakeArg(option + "=" + value) == Split(option, value, true)
  {
    var t := option + "=" + value;
    assert t[|option|] == '=';
    var k := IndexOf(t, '=');
    assert forall j :: 0 <= j < |option| ==> t[j] == option[j] && t[j] != '=';
    assert t[..k] == option;
    assert t[k + 1..] == value;
  }

  /** `endOptionIndex`: index of the first `--` after the program name, or
      `|argv|` when there is none. */
  function EndOptionIndex(argv: seq<string>): (r: nat)
    ensures r <= |argv|
    ensures |argv| >= 1 ==> r >= 1
    ensures r < |argv| ==> argv[r] == "--"
    ensures forall j :: 1 <= j < r ==> argv[j] != "--"
  {
    EndOptionFrom(argv, 1)
  }

  function EndOptionFrom(argv: seq<string>, i: nat): (r: nat)
    requires i <= |argv| + 1
    ensures r <= |argv|
    ensures i <= |argv| ==> i <= r
    ensures r < |argv| ==> argv[r] == "--"
    ensures forall j :: i <= j < r ==> argv[j] != "--"
    decreases |argv| - i + 1
  {
    if i >= |argv| then |argv|
    else if argv[i] == "--" then i
    else EndOptionFrom(argv, i + 1)
  }

  /** The registry key of a one-character short flag: `-` followed by `c`. */
  function ShortKey(c: char): string {
    ['-', c]
  }

  /** `parts` separated by `sep`, as the library writes lists into a stream. */
  function Join(parts: seq<string>, sep: string): string
    decreases |parts|
  {
    if |parts| == 0 then ""
    else if |parts| == 1 then parts[0]
    else parts[0] + sep + Join(parts[1..], sep)
  }
}
