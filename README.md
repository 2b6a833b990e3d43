# argparsor — a Dafny model of the command-line parser core

This project models the core of the `argparsor` C++ library: it covers declaring
arguments, walking an `argv` vector and checking the result. Each declaration is
an `Argument` record. It has a name or flag list and an arity class
(`Argument::Type`). It also has a presence flag, an occurrence count, and either a
scalar value or a list of value elements. The parser object, `Argparsor`, owns two
things:

- the list of declarations, which it re-sorts with `compareOption` after every
  `addArgument` and every `flag`;
- a map from every name and flag to its declaration.

It also keeps the settings (`alternative`, `strict`, help and version exceptions)
and collects the additional arguments.

The parsing itself has these parts:

- **Token classification.** Each token is a short option, a long option, the `--`
  marker or a plain token. `takeArg` splits an inline `=value` off the token, and
  `endOptionIndex` locates the `--` marker.
- **Short options.** `-abc` is a cluster of one-character flags. With
  `alternative` set, the token is first tried as a whole flag.
- **Long options.** A long option is looked up by its whole name.
- **Value consumption.** `_parseArgument` consumes values per arity class:
  - a fixed number of following tokens;
  - a variadic list that ends at the next token that looks like a declared option;
  - groups of `nargs` tokens.
- **Positional filling.** Each plain token fills the first positional declaration
  not yet present. If there is none, the token becomes an additional argument, or
  an error in strict mode.
- **Final checks.** After the walk come three steps:
  1. the help and version actions;
  2. the check that required declarations are present;
  3. validation of values by a validator (`ValidChoise`, `ValidMinMax` or a
     custom one), which may rewrite the values.

The model has two layers:

* **Pure specifications** live in `Tokens`, `Validators`, `Arguments` and `Engine`.
  Each parse routine is a function from a `State` (declarations, name map,
  settings, additional arguments) and the token vector to a `Result`. Errors are
  `Failure` values carrying the library's exception kind, name and message.
* **The imperative parser** is `Registry.Argparsor`. It is a class with the
  library's fields:
  - `arguments: seq<Argument>`, indexed by handle. A handle stands in for the
    library's `Argument**`, the address of a list node, which keeps its
    declaration when the list is sorted;
  - `order: seq<nat>`, the handles in list order;
  - `argumentFromName: map<string, nat>`, from names to handles;
  - `additionalArguments`;
  - the binary name, the version and the flags.

  Its methods carry the library's loops. Each method is proved to compute exactly
  its specification function on `Snapshot()`. The class invariant `Valid()` says
  three things: every name resolves to a declaration that carries it; every
  name a declaration carries is in the map; and `order` lists every handle
  exactly once. Every walk over the list (positional filling, the required
  check, the validator pass) goes in list order, so "first" below always means
  first in that order.

Further properties are proved in `Properties` (option side) and `RunProperties`
(positionals, the walk, the final checks). They include:

- how many tokens each arity class consumes;
- where a variadic list stops;
- that a boolean cluster counts every flag;
- that plain tokens become additional arguments in order;
- that the required check reports the first missing declaration;
- that validation fails at the first invalid declaration and keeps the values
  the validator returned.

Some helpers live outside the modelled files, so their bodies are not visible.
They are fields of a `Helpers` record of functions:

- `_typeConstructor` and `_defaultsConstructor`;
- `_sortNameOrFlags` and `validFormatFlag`;
- the list sort by `compareOption` (`sortOrder`);
- custom validators;
- the number parser and formatter.

`HelpersOk` states the three facts about them that the model relies on:

- a type that steps by `nargs` is only chosen when `nargs >= 1`;
- sorting the flag list is a permutation;
- sorting the declaration list only reorders the handles.

In a few places the code and the library's own description disagree. The model
follows the code in each case:

- **Required message.** Only `POSITIONAL_ARGUMENT` reports
  `"argument is required"`. The other positional classes report
  `"option is required"` (`src/argparsor-argparsor.cpp:412-417`).
- **Duplicate flags.** `addArgument` checks only the first flag of a list against
  the existing names (`src/argparsor-argparsor.cpp:517`), and the name map uses
  insert-if-absent (`src/argparsor-argparsor.cpp:534`). A later duplicate flag is
  therefore not an error and keeps its old mapping. The `newFlags` list built at
  `src/argparsor-argparsor.cpp:513-522` is never used.
- **Mid-cluster count.** A value-taking flag in the middle of a short cluster is
  counted twice: once at `src/argparsor-argparsor.cpp:572-573` and again at
  `src/argparsor-argparsor.cpp:735-736`.
- **`MULTI_NUMBER_INFINITE_OPTION` mid-cluster.** It is missing from the
  mid-cluster value list at `src/argparsor-argparsor.cpp:564-569`, so it is
  rejected with `"only last option can be use a parameter"`.
- **Positionals.** A positional does not bump the occurrence count
  (`src/argparsor-argparsor.cpp:839`). Positional values are appended to what is
  already stored, without clearing it first.
- **Lookahead.** Inside a cluster, the lookahead that ends a variadic list treats
  an unknown flag character as "not an option". The cluster parser treats the same
  character as an `"invalid option"` error.

## Model

| member | source | states |
|---|---|---|
| Tokens.ClassesAreDisjoint | src/argparsor-argparsor.cpp:378-392 | a token is at most one of short option, long option and `--`, so the dispatch order of the walk does not matter |
| Tokens.TakeArg | src/argparsor-argparsor.cpp:547 | an inline value is present iff the token has `=`; the option part is the prefix before the first `=` and contains no `=`; the value is everything after it; with no `=` the option is the whole token |
| Tokens.TakeArgRejoin | src/argparsor-argparsor.cpp:597 | splitting loses nothing: rejoining option, `=` and value gives the token back |
| Tokens.TakeArgOfJoined | src/argparsor-argparsor.cpp:597 | the inverse direction: an option without `=` followed by `=value` splits back into exactly those parts |
| Tokens.ShortOptionPart | src/argparsor-argparsor.cpp:543-558 | the option part of a short option token is non-empty and keeps its dash, so the cluster characters start at index 1 |
| Tokens.LongOptionPart | src/argparsor-argparsor.cpp:597-602 | the option part of a long option token keeps both dashes, so dropping two characters for the error name is well defined |
| Tokens.EndOptionIndex | src/argparsor-argparsor.cpp:375 | the result is the first `--` at index 1 or later, or `argc` when there is none; no earlier token is `--` |
| Validators.NewMinMax | include/mblet/argparsor-valid.h:68-74 | the bounds are stored in order, swapped when given reversed |
| Validators.FirstNotChoice | include/mblet/argparsor-valid.h:117-124 | position of the first value not among the choices; all values before it are choices |
| Validators.ChoiceAcceptsExactly | include/mblet/argparsor-valid.h:117-130 | `ValidChoise` accepts iff every value is one of the choices, and on acceptance hands the values back unchanged |
| Validators.ChoiceRejectsFirst | include/mblet/argparsor-valid.h:124-128 | a rejection names the first value that is not a choice, quoted, followed by the quoted comma-separated choice list |
| Validators.ChoiceListText | include/mblet/argparsor-valid.h:110-116 | the loop builds the quoted choices joined by `, ` |
| Validators.ChoiceIsValid | include/mblet/argparsor-valid.h:109-131 | the nested search loop computes the choice check: acceptance, or rejection at the first non-choice |
| Validators.FirstBadNumber | include/mblet/argparsor-valid.h:82-95 | position of the first value that does not parse as a number within the bounds; all values before it pass |
| Validators.MinMaxAcceptsExactly | include/mblet/argparsor-valid.h:81-98 | `ValidMinMax` accepts iff every value parses to a number between min and max inclusive, hands the values back unchanged, and otherwise rejects at the first failing value |
| Validators.MinMaxIsValid | include/mblet/argparsor-valid.h:81-98 | the loop computes the min/max check, with the "is not a number" and "is not between" messages |
| Validators.BuiltinsKeepArguments | include/mblet/argparsor-valid.h:81-131 | the built-in validators never rewrite values and accept the empty list |
| Arguments.NewArgument | include/mblet/argparsor-argument.h:162-177 | a new declaration has no type, no names, no values, no validator, is absent, not required, count and nargs 0 |
| Arguments.Copy | include/mblet/argparsor-argument.h:184-199 | the copy constructor copies every field except the defaults, which start empty |
| Arguments.PositionalTypesAreFour | include/mblet/argparsor/argument.h:588-598 | exactly the four positional classes are positional |
| Arguments.AsBool | include/mblet/argparsor/argument.h:375-382 | a reverse boolean is true when absent; every other class is true when present |
| Arguments.BoolTo | include/mblet/argparsor/argument.h:112-119 | true renders as `"true"`, false as `"false"` |
| Arguments.GetNumber | include/mblet/argparsor/argument.h:265-270 | succeeds iff the value was converted to a number, and then returns it; otherwise fails with "is not a number" |
| Arguments.GetStringOfBoolean | include/mblet/argparsor-argument.h:231-236 | the text of a boolean class is the text of its truth value |
| Arguments.GetStringOfFlatList | include/mblet/argparsor-argument.h:237-262 | the text of a non-empty flat list is its values joined by `, `, the same as the vector conversion |
| Arguments.GetStringOfGroups | include/mblet/argparsor-argument.h:237-256 | the text of a non-empty list of groups is the vector-of-vectors conversion with each group in parentheses, its items joined by `, `, and the groups joined by `, ` |
| Arguments.GetStringOfScalar | include/mblet/argparsor-argument.h:257-259 | a non-boolean declaration with no elements renders as its scalar value |
| Arguments.ToStrings | include/mblet/argparsor-argument.h:294-315 | the vector-of-strings conversion succeeds exactly for the flat-list and group-list option classes |
| Arguments.ToStringGroups | include/mblet/argparsor-argument.h:322-336 | the vector-of-vectors conversion succeeds exactly for the group-list classes, one inner list per element |
| Arguments.GroupsFlattenToStrings | include/mblet/argparsor-argument.h:294-336 | for group lists, flattening the vector-of-vectors conversion gives the vector conversion, and each inner list is that element's strings |
| Arguments.ElemToStrings | include/mblet/argparsor-argument.h:106-117 | an element converts to strings iff it has sub-elements, giving their texts |
| Arguments.ElemConversionMatchesGroups | include/mblet/argparsor-argument.h:106-117 | converting one group element agrees with the corresponding entry of the whole argument's vector-of-vectors conversion |
| Arguments.DestStringsFlattenGroups | include/mblet/argparsor/argument.h:686-703 | the strings handed to a custom destination are the flattened groups; an argument without elements hands over its scalar value |
| Arguments.DestStringsOfFlatList | include/mblet/argparsor/argument.h:686-703 | for a flat list the destination strings equal the vector conversion |
| Arguments.DestArguments | include/mblet/argparsor/argument.h:686-703 | the nested loop collects the destination strings |
| Arguments.ValidationValues | src/argparsor-argparsor.cpp:424-443 | for option lists the values given to the validator are the vector conversion |
| Arguments.WriteTexts | src/argparsor-argparsor.cpp:460-462 | the first `min(size, |values|)` elements take the returned values; the rest are unchanged |
| Arguments.WriteBack | src/argparsor-argparsor.cpp:447-479 | write-back succeeds exactly for the scalar, flat and grouped classes, and changes only the stored values; other classes fail with "invalid type option for use valid" |
| Arguments.WriteGroupsOwnValues | src/argparsor-argparsor.cpp:464-474 | writing a grouped argument's own flattened values back leaves it unchanged |
| Arguments.WriteBackOwnValues | src/argparsor-argparsor.cpp:447-479 | writing back the values handed to the validator leaves the argument unchanged |
| Arguments.WriteGroupsReadBack | src/argparsor-argparsor.cpp:464-474 | after a grouped write-back of as many values as there are items, reading the items gives exactly those values |
| Arguments.WriteBackReadBack | src/argparsor-argparsor.cpp:447-479 | after write-back of a list of the right length, the validation values read back are that list |
| Arguments.WithHelp | include/mblet/argparsor/argument.h:446-449 | sets the help text and nothing else |
| Arguments.WithMetavar | include/mblet/argparsor/argument.h:463-466 | sets the metavar and nothing else |
| Arguments.WithRequired | include/mblet/argparsor/argument.h:456 | sets the required flag and nothing else |
| Arguments.WithNargs | include/mblet/argparsor/argument.h:473-478 | sets nargs, re-derives the arity class from the new configuration, rebuilds the value fields as `_defaultsConstructor` gives them for that class and configuration, and changes nothing else |
| Arguments.WithAction | include/mblet/argparsor/argument.h:434-439 | sets the action, re-derives the arity class, rebuilds the value fields as `_defaultsConstructor` gives them for that class and configuration, and changes nothing else |
| Arguments.WithDefaults | include/mblet/argparsor/argument.h:485-489 | sets the defaults and rebuilds the value fields as `_defaultsConstructor` gives them for the unchanged arity class and the new defaults; nothing else changes |
| Arguments.WithValid | include/mblet/argparsor/argument.h:496-503 | installs the validator and its ownership flag and changes nothing else |
| Arguments.Released | include/mblet/argparsor/argument.h:497-499 | the old validator is released iff one is installed and owned |
| Arguments.ApplySetter | include/mblet/argparsor/argument.h:434-503 | no setter touches names, presence or count; every setter keeps a well-formed declaration well-formed; `nargs`, `action` and `defaults` leave the value fields equal to the defaults of the new configuration, and every other setter keeps that property |
| Engine.SameDeclarationsKeepNames | src/argparsor-argparsor.cpp:377-395 | parsing changes only presence, counts and values, so name resolution and the list order stay valid |
| Engine.ListOrderPermutes | src/argparsor-argparsor.cpp:530-536 | the list holds every declaration exactly once: each handle is below the number of declarations, none repeats, and every declaration is listed |
| Engine.EndOfInfinite | src/argparsor-argparsor.cpp:739-786 | a plain token never ends a variadic list; a long option ends it iff its name is declared |
| Engine.TakeCount | src/argparsor-argparsor.cpp:655-666 | the variadic count never runs past the bound |
| Engine.TakeCountTakes | src/argparsor-argparsor.cpp:658-664 | no token taken into a variadic list looks like a declared option, unless `--` was already passed |
| Engine.TakeCountStops | src/argparsor-argparsor.cpp:658-661 | a variadic list stops before the bound only at a token that looks like a declared option |
| Engine.GroupsFrom | src/argparsor-argparsor.cpp:709-730 | the grouped scan stays within bounds and consumes nothing exactly when it ends where it started |
| Engine.InlineValue | src/argparsor-argparsor.cpp:608-635 | an inline value changes only stored values, and every error names the option |
| Engine.FixedValues | src/argparsor-argparsor.cpp:638-708 | a fixed-count class moves the cursor forward within the bound, or fails with "bad number of argument" |
| Engine.VariadicValues | src/argparsor-argparsor.cpp:655-693 | a variadic class never fails and moves the cursor forward within the bound |
| Engine.GroupValues | src/argparsor-argparsor.cpp:709-730 | a grouped variadic option moves the cursor forward within the bound, or fails with "bad number of argument" |
| Engine.NextValues | src/argparsor-argparsor.cpp:636-734 | value consumption without an inline value stays within the bound and fails only with "bad number of argument" |
| Engine.ParseArgumentSpec | src/argparsor-argparsor.cpp:606-737 | on success the declaration is present, its count is one more, only its values changed, and the cursor moved forward within the bound; errors are parse errors naming the option |
| Engine.ParseArgumentAt | src/argparsor-argparsor.cpp:606-737 | the stored form keeps every declaration and the name map |
| Engine.ShortSpec | src/argparsor-argparsor.cpp:543-591 | a short option token keeps every declaration and moves the cursor forward within the bound |
| Engine.Bump | src/argparsor-argparsor.cpp:581-582 | marking a flag present changes nothing but its presence and count |
| Engine.ClusterScan | src/argparsor-argparsor.cpp:558-583 | the cluster scan either reaches the last character, or fails with a parse error, or stops at a value-taking flag registered in the middle with no inline value |
| Engine.ClusterSpec | src/argparsor-argparsor.cpp:557-590 | a cluster keeps every declaration, moves the cursor forward, and fails only with parse errors |
| Engine.RestSpec | src/argparsor-argparsor.cpp:570-575 | a mid-cluster value-taking flag takes the rest of the cluster as its inline value |
| Engine.LastSpec | src/argparsor-argparsor.cpp:585-590 | the last cluster character is looked up and parsed with the token's inline value |
| Engine.LongSpec | src/argparsor-argparsor.cpp:593-604 | a long option keeps every declaration and moves the cursor forward within the bound |
| Engine.FirstOpenPositional | src/argparsor-argparsor.cpp:790-795 | the place in list order of the first positional declaration not yet present; every declaration earlier in the list is present or not positional |
| Engine.PositionalSpec | src/argparsor-argparsor.cpp:788-849 | a plain token keeps every declaration and moves the cursor forward within `argc` |
| Engine.PositionalFill | src/argparsor-argparsor.cpp:797-838 | filling a positional changes only its values, leaves presence and count alone, and fails only with "bad number of argument" naming the declaration |
| Engine.NumberPositional | src/argparsor-argparsor.cpp:801-809 | a fixed-count positional moves the cursor within `argc` or fails with "bad number of argument" |
| Engine.InfinitePositional | src/argparsor-argparsor.cpp:810-820 | a variadic positional never fails |
| Engine.GroupPositional | src/argparsor-argparsor.cpp:821-838 | a grouped positional moves the cursor within `argc` or fails with "bad number of argument" |
| Engine.PositionalGroupsNotEmpty | src/argparsor-argparsor.cpp:821-837 | a grouped positional that succeeds takes at least one group |
| Engine.TokenSpec | src/argparsor-argparsor.cpp:378-394 | one step of the walk keeps every declaration and moves the cursor forward before the end marker |
| Engine.WalkFrom | src/argparsor-argparsor.cpp:377-395 | the whole walk keeps every declaration and the name map |
| Engine.WalkFromDone | src/argparsor-argparsor.cpp:377 | the walk stops at the end of `argv` |
| Engine.WalkFromToken | src/argparsor-argparsor.cpp:377-394 | the walk is one token step followed by the walk from the next index, and an error stops it |
| Engine.WalkFromEnd | src/argparsor-argparsor.cpp:384-391 | at `--` the walk hands the rest over to the after-marker loop |
| Engine.AfterEnd | src/argparsor-argparsor.cpp:384-391 | after `--` every token is parsed as positional with the lookahead bypassed |
| Engine.AfterEndDone | src/argparsor-argparsor.cpp:386 | after `--` the loop stops at the end of `argv` |
| Engine.AfterEndToken | src/argparsor-argparsor.cpp:386-389 | after `--` the loop is one positional step followed by the loop from the next index |
| Engine.FirstMissing | src/argparsor-argparsor.cpp:409-411 | the place in list order of the first required declaration that is absent; every one earlier in the list is present or optional |
| Engine.RequiredCheck | src/argparsor-argparsor.cpp:409-419 | passes iff every required declaration in the list is present, and then changes nothing |
| Engine.ValidateOne | src/argparsor-argparsor.cpp:421-485 | validation changes only stored values, and every failure is a validation error naming the declaration |
| Engine.ValidateFrom | src/argparsor-argparsor.cpp:421-485 | the pass from a place in the list keeps the number of declarations and every declaration, and leaves untouched every declaration not listed from that place on; its only failure is a validation error (`ParseArgumentValidException`) |
| Engine.ValidatedOneByOne | src/argparsor-argparsor.cpp:421-485 | after a successful pass, every declaration listed from the start place on is what validating it alone gives |
| Engine.ValidateFromStep | src/argparsor-argparsor.cpp:421-485 | the pass is the validation of the declaration at the current place in the list followed by the pass from the next place, and the first failure stops it |
| Engine.ParseSpec | src/argparsor-argparsor.cpp:370-491 | `parseArguments` records the settings and keeps every declaration |
| Engine.FinishSpec | src/argparsor-argparsor.cpp:396-491 | the checks after the walk keep every declaration |
| Registry.NewDeclaration | src/argparsor-argparsor.cpp:493-528 | an empty list fails with "invalid empty flag"; one name not starting with `-` gives a positional with nargs 1; a flag list gives an untyped declaration with the sorted flags; a new declaration is absent, not required, count 0 |
| Registry.NewDeclarationWellFormed | src/argparsor-argparsor.cpp:505-527 | a new declaration is well-formed |
| Registry.InsertAbsentMaps | src/argparsor-argparsor.cpp:533-535 | inserting the flags adds exactly the new keys, keeps every existing mapping, and maps each new key to the new declaration |
| Registry.InsertNames | src/argparsor-argparsor.cpp:533-535 | the insertion loop computes the insert-if-absent map |
| Registry.SortKeeps | src/argparsor-argparsor.cpp:527 | sorting the flags keeps the same flags and the same number of them |
| Registry.AppendResolves | src/argparsor-argparsor.cpp:530-535 | appending a declaration at the end of the list and inserting its flags keeps every name resolving to a declaration that carries it, and the list holding every handle once |
| Registry.FlagResolves | include/mblet/argparsor-argument.h:363-365 | replacing a declaration's flags by a reordering of them plus one new flag, and inserting that flag, keeps name resolution and the list valid |
| Registry.HelpAdded | src/argparsor-argparsor.cpp:67 | `addArgument("-h")` on the empty parser declares `-h` alone, maps `-h` to handle 0, and leaves that handle alone in the sorted list |
| Registry.HelpDeclaration | src/argparsor-argparsor.cpp:67 | the built-in help declaration has the help action and the text "show this help message and exit" |
| Registry.WriteTextsLoop | src/argparsor-argparsor.cpp:460-462 | the write-back loop over flat elements computes the flat write-back |
| Registry.FillGroup | src/argparsor-argparsor.cpp:469-472 | the inner loop overwrites a prefix of the group with the next values and stops at the group's end or the values' end |
| Registry.WriteGroupsLoop | src/argparsor-argparsor.cpp:467-473 | the nested write-back loop computes the grouped write-back |
| Registry.CopyTokens | src/argparsor-argparsor.cpp:650-652 | the copy loop yields exactly the token slice |
| Registry.Argparsor.constructor | src/argparsor-argparsor.cpp:49-64 | a new parser has no declarations, an empty list and name map, no additional arguments, an empty binary name and version, and both settings off; the two exception flags are left unspecified, as the initialiser list leaves them |
| Registry.Argparsor.SetVersion | include/mblet/argparsor/argparsor.h:70-72 | sets the version and nothing else |
| Registry.Argparsor.SetBinaryName | include/mblet/argparsor/argparsor.h:167-169 | sets the binary name and nothing else |
| Registry.Argparsor.SetAlternative | include/mblet/argparsor/argparsor.h:88-91 | sets alternative mode and nothing else |
| Registry.Argparsor.SetStrict | include/mblet/argparsor/argparsor.h:108-111 | sets strict mode and nothing else |
| Registry.Argparsor.SetHelpException | include/mblet/argparsor/argparsor.h:128-131 | sets the help-exception flag and nothing else |
| Registry.Argparsor.SetVersionException | include/mblet/argparsor/argparsor.h:148-151 | sets the version-exception flag and nothing else |
| Registry.Argparsor.ArgumentExists | include/mblet/argparsor/argparsor.h:186-188 | true iff the name is registered, and then the declaration carries it |
| Registry.Argparsor.GetArgument | include/mblet/argparsor/argparsor.h:196-202 | a registered name gives its declaration, which carries the name; otherwise "argument not found" |
| Registry.Argparsor.UpdateArgument | include/mblet/argparsor/argparsor.h:257-263 | a registered name gives a handle to the same declaration that the lookup returns; otherwise "argument not found" |
| Registry.Argparsor.CreateArgument | src/argparsor-argparsor.cpp:493-528 | the checking loop builds the new declaration or its error as specified |
| Registry.Argparsor.Register | src/argparsor-argparsor.cpp:530-537 | appends the declaration, inserts its flags if absent, re-sorts the list with the new handle in it, keeps the class invariant, and changes nothing else |
| Registry.Argparsor.SortList | src/argparsor-argparsor.cpp:536 | the list becomes the `compareOption` order of its handles; the declarations, the map and every other field are unchanged |
| Registry.Argparsor.AddArgument | src/argparsor-argparsor.cpp:493-538 | on an error the declarations, list and map are unchanged; otherwise the declaration is appended, its handle returned, the list re-sorted with it, and its flags inserted without overwriting existing names; the binary name, version, settings, additional arguments and exception flags never change |
| Registry.Argparsor.Flag | include/mblet/argparsor-argument.h:358-368 | adding a flag to a plain positional (`POSITIONAL_ARGUMENT`) or an invalid flag fails and changes neither declarations, list nor map; otherwise the flag joins the declaration's sorted flags and the map, and the declaration list is re-sorted; no other field changes |
| Registry.Argparsor.Apply | include/mblet/argparsor/argument.h:434-503 | a fluent setter rewrites only its declaration, does not re-sort the list, keeps the class invariant, and changes no other field |
| Registry.Argparsor.DefineHelp | src/argparsor-argparsor.cpp:65-68 | on the empty parser: if `-h` is refused nothing is declared; if `--help` is refused only `-h` is declared, as handle 0; otherwise exactly one declaration, the help declaration, is listed, and both `-h` and `--help` map to it; no other field changes |
| Registry.Argparsor.AddHelpFlag | src/argparsor-argparsor.cpp:67 | on the parser holding only `-h`: a refused `--help` changes nothing; otherwise the one declaration becomes the help declaration and both names map to it |
| Registry.Argparsor.MarkHelp | src/argparsor-argparsor.cpp:67 | the `action(HELP)` and `help(...)` setters rewrite only their declaration |
| Registry.Argparsor.EndOfInfiniteArgument | src/argparsor-argparsor.cpp:739-786 | the lookahead loop computes the specified lookahead |
| Registry.Argparsor.TakeLeaves | src/argparsor-argparsor.cpp:655-666 | the variadic loop takes exactly the tokens up to the lookahead stop, as leaves |
| Registry.Argparsor.TakeGroups | src/argparsor-argparsor.cpp:709-730 | the grouped loop computes the grouped scan |
| Registry.Argparsor.InlineArgument | src/argparsor-argparsor.cpp:608-635 | computes the inline-value case |
| Registry.Argparsor.FixedArguments | src/argparsor-argparsor.cpp:638-708 | computes the fixed-count cases |
| Registry.Argparsor.VariadicArguments | src/argparsor-argparsor.cpp:655-693 | computes the variadic cases |
| Registry.Argparsor.GroupArguments | src/argparsor-argparsor.cpp:709-730 | computes the grouped variadic option |
| Registry.Argparsor.NextArguments | src/argparsor-argparsor.cpp:636-734 | dispatches on the arity class as specified |
| Registry.Argparsor.ArgumentStep | src/argparsor-argparsor.cpp:606-736 | computes `_parseArgument` on one declaration |
| Registry.Argparsor.ParseArgument | src/argparsor-argparsor.cpp:606-737 | stores the result of `_parseArgument` into the parser, or reports its error |
| Registry.Argparsor.Mark | src/argparsor-argparsor.cpp:581-582 | marks one declaration present and bumps its count |
| Registry.Argparsor.ScanCluster | src/argparsor-argparsor.cpp:558-583 | the cluster loop computes the cluster scan on the parser's state |
| Registry.Argparsor.ScanCharacter | src/argparsor-argparsor.cpp:559-582 | one character of the cluster loop either ends the scan with its outcome or leaves the rest of the scan equal to the scan from the next character |
| Registry.Argparsor.ParseClusterRest | src/argparsor-argparsor.cpp:570-575 | follows the specification of a mid-cluster value-taking flag |
| Registry.Argparsor.ParseClusterLast | src/argparsor-argparsor.cpp:585-590 | follows the specification of the last character |
| Registry.Argparsor.ParseCluster | src/argparsor-argparsor.cpp:557-590 | follows the cluster specification |
| Registry.Argparsor.ParseShortArgument | src/argparsor-argparsor.cpp:543-591 | follows the short-option specification |
| Registry.Argparsor.ParseLongArgument | src/argparsor-argparsor.cpp:593-604 | follows the long-option specification |
| Registry.Argparsor.FindOpenPositional | src/argparsor-argparsor.cpp:790-795 | the search loop over the list finds the first open positional in list order |
| Registry.Argparsor.NumberPositionalStep | src/argparsor-argparsor.cpp:801-809 | computes the fixed-count positional |
| Registry.Argparsor.InfinitePositionalStep | src/argparsor-argparsor.cpp:810-820 | computes the variadic positional |
| Registry.Argparsor.GroupPositionalStep | src/argparsor-argparsor.cpp:821-838 | computes the grouped positional |
| Registry.Argparsor.PositionalStep | src/argparsor-argparsor.cpp:797-838 | dispatches on the positional class as specified |
| Registry.Argparsor.ParsePositionalArgument | src/argparsor-argparsor.cpp:788-849 | follows the positional specification, including additional arguments and the strict error |
| Registry.Argparsor.ParsePastEnd | src/argparsor-argparsor.cpp:386-389 | one step of the loop after `--` keeps the remaining loop equal to its specification |
| Registry.Argparsor.ParseAfterEnd | src/argparsor-argparsor.cpp:384-391 | the loop after `--` follows its specification |
| Registry.Argparsor.ParseToken | src/argparsor-argparsor.cpp:378-394 | one token of the walk follows its specification |
| Registry.Argparsor.WalkToken | src/argparsor-argparsor.cpp:392-394 | one token of the main loop either stops the walk with the walk's error or leaves the rest of the walk equal to the walk from the next cursor |
| Registry.Argparsor.Walk | src/argparsor-argparsor.cpp:377-395 | the main loop follows the walk specification |
| Registry.Argparsor.CheckRequired | src/argparsor-argparsor.cpp:409-419 | the loop over the list computes the required check |
| Registry.Argparsor.ValidateArgument | src/argparsor-argparsor.cpp:422-484 | computes validation and write-back of one declaration |
| Registry.Argparsor.ValidateList | src/argparsor-argparsor.cpp:421-485 | the loop over the list computes the validation pass |
| Registry.Argparsor.ValidateAll | src/argparsor-argparsor.cpp:421-485 | on failure reports the pass's error; on success stores the validated declarations and changes nothing else |
| Registry.Argparsor.Finish | src/argparsor-argparsor.cpp:396-491 | follows the specification of the checks after the walk |
| Registry.Argparsor.ParseArguments | src/argparsor-argparsor.cpp:370-491 | records the binary name and settings, follows the whole-parse specification, and leaves the version and exception flags unchanged |
| Properties.FlagsCheckPasses | src/argparsor-argparsor.cpp:515-523 | when the front flag is new and every flag has a valid format, the flag checks pass |
| Properties.FlagListChecksFront | src/argparsor-argparsor.cpp:515-535 | a flag list fails with "invalid flag already exist" exactly when its front flag exists; otherwise it is accepted and every existing name keeps its mapping |
| Properties.LongOptionLookup | src/argparsor-argparsor.cpp:593-604 | an unknown long option fails with "invalid option" naming it without dashes, and only then; a known one is marked present with its count bumped |
| Properties.InlineValueCases | src/argparsor-argparsor.cpp:608-635 | an inline value is accepted exactly by the simple, infinite, multi and multi-infinite classes, with the stored values per class; number classes fail with "option cannot use with only 1 argument"; the rest fail with "option cannot use with argument" |
| Properties.FixedCountConsumes | src/argparsor-argparsor.cpp:638-708 | a fixed-count class succeeds iff enough tokens remain before the bound, consumes exactly its count, and stores exactly those tokens; multi classes keep earlier values only when already present |
| Properties.VariadicStopsAtLookahead | src/argparsor-argparsor.cpp:655-693 | a variadic option takes every token up to the first one that looks like a declared option, and exactly those |
| Properties.GroupsAreWhole | src/argparsor-argparsor.cpp:709-730 | a successful grouped scan consists of whole groups of `nargs` tokens that flatten to the consumed slice, and stops early only at a token that looks like an option |
| Properties.LookaheadSingleFlag | src/argparsor-argparsor.cpp:743-785 | a two-character short token ends a variadic list iff its flag is declared, or alternative mode declares the whole token |
| Properties.LookaheadUnknownCluster | src/argparsor-argparsor.cpp:752-757 | a cluster whose first character is unknown does not end a variadic list |
| Properties.BumpRunCounts | src/argparsor-argparsor.cpp:581-582 | after marking a run of flags, each declaration's count grows by the number of its characters in the run |
| Properties.ScanAllBooleans | src/argparsor-argparsor.cpp:558-583 | a cluster whose middle characters are all boolean flags marks each of them and reaches the last character |
| Properties.ShortIsCluster | src/argparsor-argparsor.cpp:548-556 | without an alternative match, a short token is parsed as a cluster |
| Properties.LastBooleanCounted | src/argparsor-argparsor.cpp:585-590 | a boolean last character is marked present and counted once, and the cursor stays put |
| Properties.BooleanClusterIsRun | src/argparsor-argparsor.cpp:543-591 | a cluster of boolean flags marks every flag, with counts equal to their occurrences, and consumes only the token |
| Properties.MidClusterCountedTwice | src/argparsor-argparsor.cpp:570-575 | a value-taking flag in mid-cluster is counted twice, and a simple option stores the rest of the cluster |
| Properties.MidClusterMultiNumberInfinite | src/argparsor-argparsor.cpp:564-580 | a multi-number-infinite flag in mid-cluster fails with "only last option can be use a parameter" |
| RunProperties.PositionalFillsFirstOpen | src/argparsor-argparsor.cpp:788-840 | a plain token fills the first open positional in list order: only that one becomes present, its count is unchanged, the list and the additional arguments are unchanged, and the next token fills a later one; failures name that declaration |
| RunProperties.PositionalExtra | src/argparsor-argparsor.cpp:841-848 | with no open positional, a token fails iff strict mode is on, with "invalid additional argument"; otherwise it is appended to the additional arguments |
| RunProperties.FixedPositionalValues | src/argparsor-argparsor.cpp:798-809 | a positional takes the token; a fixed-count positional succeeds iff `nargs` tokens remain, appends exactly them and moves the cursor to the last |
| RunProperties.InfinitePositionalStops | src/argparsor-argparsor.cpp:810-820 | a variadic positional appends every token up to the lookahead stop, or to the end after `--` |
| RunProperties.GroupPositionalPartial | src/argparsor-argparsor.cpp:827-829 | a partial last group fails with "bad number of argument" naming the declaration |
| RunProperties.GroupPositionalWhole | src/argparsor-argparsor.cpp:821-838 | a grouped positional appends whole groups of `nargs` tokens covering the consumed slice and moves the cursor to its last token |
| RunProperties.PlainTokensAreAdditional | src/argparsor-argparsor.cpp:377-395 | with every positional filled and strict off, a run of plain tokens becomes additional arguments in order |
| RunProperties.WalkFromPlain | src/argparsor-argparsor.cpp:392-394 | a plain token does not end a variadic list, and the walk parses it as positional |
| RunProperties.StrictRejectsExtra | src/argparsor-argparsor.cpp:842-844 | in strict mode, a plain token with no open positional stops the walk with "invalid additional argument" |
| RunProperties.AfterEndAllAdditional | src/argparsor-argparsor.cpp:384-391 | after `--`, with every positional filled and strict off, the remaining tokens become additional arguments in order |
| RunProperties.RequiredReportsFirstMissing | src/argparsor-argparsor.cpp:409-419 | the required check fails iff some listed required declaration is absent; it reports the first such declaration in list order, with "argument is required" only for a plain positional |
| RunProperties.RequiredCheckCoversAll | src/argparsor-argparsor.cpp:409-419 | since the list holds every declaration, the required check passes iff every required declaration is present |
| RunProperties.FirstInvalid | src/argparsor-argparsor.cpp:421-485 | reference definition: the place in list order of the first declaration whose validation fails; every earlier one validates |
| RunProperties.ValidationFailsAtFirst | src/argparsor-argparsor.cpp:421-485 | the validation pass fails iff some listed declaration is invalid, and then with the error of the first invalid one in list order |
| RunProperties.ValidatedEverywhere | src/argparsor-argparsor.cpp:421-485 | since the list holds every declaration, a successful pass leaves each declaration as validating it alone gives |
| RunProperties.BuiltinValidationKeeps | src/argparsor-argparsor.cpp:444-479 | with a built-in validator, validation succeeds iff the validator accepts the values, and then leaves the declaration unchanged |
| RunProperties.ValidatedValuesReadBack | src/argparsor-argparsor.cpp:447-479 | values accepted and returned by a validator are exactly what the declaration holds afterwards |
| RunProperties.CheckFalseIsInvalid | src/argparsor-argparsor.cpp:444-446 | a validator answering false fails with "invalid check function" naming the declaration |
| RunProperties.FinishOutcomes | src/argparsor-argparsor.cpp:396-491 | help wins over version and both return before any check; otherwise errors are required or validation errors; a parsed result validates each declaration one by one, and every required declaration is present |

## Left out

- Usage and version printing, the destructor call and `exit(0)` are modelled as the outcomes `HelpRequested` and `VersionRequested`. `getUsage` and `src/usage.cpp` are not part of this model.
- The `_helpOption` and `_versionOption` pointers are modelled as "some present declaration has the help (version) action".
- `_toNumber` and `_toDest` after validation are left out: they convert text to numbers and to destination types outside the modelled files. The strings handed to a custom destination are modelled (`Arguments.DestArguments`).
- `ValidPath` and user validators are modelled as an opaque `Custom` check supplied as a parameter. Stream-based number parsing and formatting are parameters too.
- `compareOption`'s definition is not part of this model. The list sort it drives (`src/argparsor-argparsor.cpp:536`, `include/mblet/argparsor-argument.h:366`) is the parameter `Helpers.sortOrder`, known only to reorder the handles. The list order decides which positional a plain token fills, which missing required declaration is reported and which validation error wins; the model states each of these against the order the sort produces, not against the concrete comparison.
- `takeArg`, `isShortOption`, `isLongOption`, `isEndOption` and `endOptionIndex` (`include/mblet/argparsor/utils.h`) are not part of this model's sources. They are given the minimal definitions their uses call for.
- `_typeConstructor`, `_defaultsConstructor`, `_sortNameOrFlags`, `validFormatFlag` and the list sort by `compareOption` (`sortOrder`) are not part of this model's sources. They are parameters, constrained only by `HelpersOk`.
- Validators.NewMinMax: the bounds and the parsed numbers are reals, not doubles, so NaN and infinities are not modelled. With a NaN bound the library neither swaps the bounds (`include/mblet/argparsor-valid.h:70`) nor rejects any number (`include/mblet/argparsor-valid.h:91`).
- Engine.ValidateOne: a custom validator can only accept, answer false or reject with a message. A user validator that throws anything other than `ParseArgumentValidException` escapes the catch at `src/argparsor-argparsor.cpp:481-484` without the declaration's name; that path is not modelled.
- Arguments.ValidationValues: for `SIMPLE_OPTION` and the positional classes the values handed to a validator are the scalar value or the element texts, as the case list at `src/argparsor-argparsor.cpp:426-436` implies. The conversion in `include/mblet/argparsor-argument.h:294-315` would instead throw "convertion to vector of string not authorized" for those classes; the newer header declares the conversion without a definition here.
- Registry.Argparsor.ParseArguments: the state after an exception is not specified, because the library leaves partially updated declarations behind when it throws. The same holds for every parse method's error path; only the error value is stated.
- Registry.Argparsor.constructor: the built-in help declaration is a separate method (`DefineHelp`), not part of the constructor; it requires the parser to be still empty, as it is at its one call site. The initialiser list (`src/argparsor-argparsor.cpp:49-64`) does not set `_isHelpException` or `_isVersionException` (declared without an initialiser at `include/mblet/argparsor/argparsor.h:347-348`), so a new parser's flags are indeterminate; the constructor promises nothing about them.
- Registry.Argparsor.SetHelpException and Registry.Argparsor.SetVersionException: the two flags are stored and read back, but have no effect on `ParseArguments` or `Finish`. The header documents a `HelpException` or `VersionException` when they are set (`include/mblet/argparsor/argparsor.h:123-124`, `143-144`, `230-231`), yet `parseArguments` prints and exits on help and version regardless (`src/argparsor-argparsor.cpp:396-407`), which the outcomes `HelpRequested` and `VersionRequested` model.
- The lookahead heuristic's asymmetry with unknown short options is kept as written. An unknown first character does not end a variadic list, although the same flag is an error elsewhere.
- Getters (`GetVersion`, `IsStrict`, `GetAdditionalArguments` and the rest) are plain field reads without contracts.
- Engine.FixedValues, Engine.GroupValues, Engine.NumberPositional and Engine.GroupPositional: `nargs` and the cursor are unbounded integers. The source computes `*index + _nargs` (`src/argparsor-argparsor.cpp:647`, `698`, `718`, `802`, `827`) in `size_t`, and for an `nargs` within `*index` of `SIZE_MAX` (for example `nargs(static_cast<std::size_t>(-1))`) the sum wraps below the bound. The "bad number of argument" check then passes and no token is copied. In the fixed-count cases the cursor update (`*index += _nargs` at cpp:653 and 706, `+= _nargs - 1` at cpp:808) then moves the cursor back, so the walk re-reads tokens without end. In the grouped loops (cpp:714 and 823) the loop index steps backwards instead, pushing empty groups. For such an `nargs` the model reports "bad number of argument" instead.
- Apart from that `nargs` overflow, `countArg - 1` (`src/argparsor-argparsor.cpp:819` and `837`) does not wrap: a positional is entered only on a token that does not end a variadic list, and that token is always taken, as a value or as the first of a group of `nargs >= 1` tokens (or the group check throws).
- Arguments.SetText: an element is either a text or a group, and a group has no text of its own (`Arguments.ElemText` reads it as the empty string). Writing a text to a group element therefore leaves the element unchanged, whereas `src/argparsor-argparsor.cpp:461` sets that element's own `_argument`. The two differ only for a flat-valued declaration whose elements were built as groups.

