# shinyutils argp: help-text decisions and value parsers in Dafny

This project models the string-building core of `LazyHelpFormatter` in
`shinyutils/argp.py`, an argparse help formatter, together with two of the
argument types defined in the same file.

- **Annotation ("hext")** of one argument (`HelpFormatter.Annotation`, and the
  method `HelpFormatter.FormatAnnotation` that builds it the way the source does):
  - every choice has its `/` replaced by the placeholder U+FFFC;
  - the first choice equal to the default is bracketed in place in the list of
    choice strings;
  - the choices are joined into `{a/b/c}`;
  - the set is wrapped as `(… required)`, `(… optional)` or `(…)`.
  Without choices, the ladder is: nothing, `(required)`, `(optional)`,
  `(default: v)`, nothing.
- **Composition** of the base text, the help and the annotation
  (`HelpFormatter.Compose`, built with `+=` steps like the source).
- **Restoring the placeholders** to separators, with the round trip
  it completes.
- **Invocation option strings**: joined with `/` for options that take a
  value, unchanged for switches, `[dest]` for positionals.
  argparse accepts a positional whose `nargs` is 0, for example
  `add_argument("flag", action="store_true")`. The model treats it as the
  code does: it gets `[dest]`, no annotation unless it has choices, and
  the switch rule for the space before the annotation.
- **Section headings**: "positional arguments" becomes "arguments" and
  "optional arguments" becomes "options".
- **`comma_separated_ints`** and **`KeyValuePairsType.__call__`**. The latter
  is a loop that fills a dictionary, overwriting earlier duplicates. Both use
  a model of Python's `int()` on strings.

Modules: `Wrappers` (Option, Result), `Strings` (`str.replace`, `str.split`,
`sep.join`, `str.strip`), `IntLiteral` (`int(text)`, `str(n)`),
`HelpFormatter`, `ArgTypes`.

The model follows the code. Two behaviours of the code that a reader may
not expect:
- An optional switch whose default is `False` (a `store_true` flag) is
  annotated `(default: False)`, not `(optional)`. `False` is neither None nor
  SUPPRESS. See `HelpFormatter.SwitchDefaultExample`.
- Base, help and annotation are not always separated by single spaces. A
  switch (`nargs == 0`) without help gets its annotation with no space in
  between. See `HelpFormatter.ComposedSwitchWithoutHelp`.

## Model

| member | source | states |
|---|---|---|
| Strings.ReplaceChar | shinyutils/argp.py:73-75 | `str.replace` of one character: same length, each `find` becomes `repl`, every other character is kept |
| Strings.Split | shinyutils/argp.py:308-309 | `str.split(sep)`: count of separators plus one pieces, no piece holds the separator, and joining the pieces with the separator gives the input back |
| Strings.JoinCount | shinyutils/argp.py:87 | `sep.join(xs)` (the function `Strings.Join`) of separator-free pieces leaves exactly one separator between each two of them |
| Strings.SplitJoin | shinyutils/argp.py:87 | splitting at the separator undoes `sep.join` when no piece holds the separator |
| Strings.Strip | shinyutils/argp.py:110 | `str.strip(chars)`: neither end of the result is a stripped character; the result is empty exactly when every character was stripped |
| IntLiteral.ParseInt | shinyutils/argp.py:241 | `int(text)` succeeds exactly when the text without surrounding whitespace is a digit run, optionally after one `+` or `-`; a negative result comes only from a `-` |
| IntLiteral.Show | shinyutils/argp.py:71 | `str(n)`, as `map(str, action.choices)` renders an int choice, and the inverse that the round trip of `comma_separated_ints` needs: a minus sign exactly for a negative number, then decimal digits with no leading zero unless the number is 0 |
| IntLiteral.ParseShow | shinyutils/argp.py:241 | `int(str(n)) == n` for every integer, under the model of `int()` on text (whitespace, sign, digits with single underscores) |
| HelpFormatter.HideSeparators | shinyutils/argp.py:73-75 | a hidden choice keeps its length and holds no `/` |
| HelpFormatter.RestoreSeparators | shinyutils/argp.py:170-172 | putting `/` back for U+FFFC keeps the length, leaves no U+FFFC, and keeps every other character |
| HelpFormatter.RestoreHidden | shinyutils/argp.py:170-172 | putting `/` back for U+FFFC restores a choice that held no U+FFFC to begin with |
| HelpFormatter.DefaultIndex | shinyutils/argp.py:77-80 | `choices.index(default)`: the first index whose choice equals the default, or none exactly when no choice equals it |
| HelpFormatter.MarkedChoices | shinyutils/argp.py:77-85 | one string per choice in order, none holding `/`; choice i is bracketed exactly when it is the first equal to the default |
| HelpFormatter.ChoiceSet | shinyutils/argp.py:87 | the set is enclosed in `{` `}`, and n choices give exactly n - 1 separators, since no hidden choice holds one |
| HelpFormatter.DefaultMarking | shinyutils/argp.py:77-85 | only the choice at the default's first index is altered; no two choices are marked; none is marked when the default is not a choice |
| HelpFormatter.Annotation | shinyutils/argp.py:70-107 | the annotation is parenthesised when present; it is absent exactly when there are no choices and the argument is positional or an unrequired option with a SUPPRESS default |
| HelpFormatter.AnnotationAsWritten | shinyutils/argp.py:77-80 | as written, for choices held in a list or tuple or in a container without `.index` (a dict, a set): the call raises AttributeError exactly when there are choices and their container has no `.index`; otherwise it gives `Annotation`. `str` choices are not covered, see "Left out" |
| HelpFormatter.SubcommandsHelpRaises | shinyutils/argp.py:70-80 | the subparsers action of a parser with subcommands makes the formatter raise as written, where the intended annotation exists |
| HelpFormatter.FormatAnnotation | shinyutils/argp.py:70-107 | hiding separators, marking the default in place at its index and wrapping the set produce exactly `Annotation` |
| HelpFormatter.AnnotationWithChoices | shinyutils/argp.py:88-95 | wrapper precedence with choices: ` required` for a required option, else ` optional` for an option whose default is not a choice, else the bare set, which positionals always get |
| HelpFormatter.AnnotationWithoutChoices | shinyutils/argp.py:96-107 | without choices: nothing for a positional, else `(required)`, else `(optional)` for a None default, else `(default: v)`, else nothing for SUPPRESS |
| HelpFormatter.ChoiceTokens | shinyutils/argp.py:71-87 | splitting the joined choices at `/` yields one token per choice in declaration order; restoring a token gives back its choice, bracketed exactly at the default |
| HelpFormatter.RestoredChoiceSet | shinyutils/argp.py:170-172 | restoring the placeholders in the whole set gives `{` + the original choices joined by `/` + `}`, the default bracketed |
| HelpFormatter.Composed | shinyutils/argp.py:110-114 | the text starts with the newline-stripped base and ends with the annotation; it is just the base exactly when there is neither help nor annotation |
| HelpFormatter.Compose | shinyutils/argp.py:110-114 | the `+=` steps build exactly the composed text |
| HelpFormatter.ComposedIsSpaced | shinyutils/argp.py:110-114 | unless the argument is a switch without help, the text is the newline-stripped base, the help and the annotation, the empty ones left out, joined by single spaces |
| HelpFormatter.ComposedSwitchWithoutHelp | shinyutils/argp.py:113-114 | a switch without help gets its annotation directly after the base, with no space |
| HelpFormatter.FormatAction | shinyutils/argp.py:64-114 | the text before wrapping is the composition of the base, the help and the action's annotation |
| HelpFormatter.InvocationOptionStrings | shinyutils/argp.py:179-189 | never empty; an option that takes a value gets the single string of all its option strings joined with `/`, whatever they hold; a switch keeps its option strings and a positional gets `[dest]` |
| HelpFormatter.InvocationJoinsOptionStrings | shinyutils/argp.py:180-184 | when no option string holds `/`, splitting the single joined string at `/` recovers every option string in order |
| HelpFormatter.SlashPrefixInvocation | shinyutils/argp.py:180-184 | under `prefix_chars="/"`, the options `/f` and `/file` are still joined into the one string `/f//file` |
| HelpFormatter.SectionHeading | shinyutils/argp.py:231-236 | the two argparse headings are renamed and every other heading is kept |
| HelpFormatter.NumberChoicesExample | shinyutils/argp.py:77-95 | `-n/--num` with choices 1, 2, 3 and default 2 is annotated `({1/[2]/3})` |
| HelpFormatter.SwitchDefaultExample | shinyutils/argp.py:102-105 | a switch with default False is annotated `(default: False)` |
| ArgTypes.ParseInts | shinyutils/argp.py:241 | `map(parse, pieces)` as a list succeeds exactly when every piece parses, giving one int per piece in order, each the parse of its piece (`CommaSeparatedInts` passes `int()`) |
| ArgTypes.CommaSeparatedInts | shinyutils/argp.py:239-243 | success exactly when every comma-separated piece is an int; then one int per piece, in order; otherwise the ArgumentTypeError message |
| ArgTypes.CommaSeparatedIntsRoundTrip | shinyutils/argp.py:239-243 | a non-empty list of ints written with commas parses back to itself |
| ArgTypes.Convert | shinyutils/argp.py:310-316 | int if `int(v)` succeeds, else float if `float(v)` does, else the string itself |
| ArgTypes.Unpack | shinyutils/argp.py:309 | `k, v = kv.split("=")` succeeds exactly when `kv` holds one `=`, and then `kv` is key, `=`, value; no `=` at all is the "not enough values" error |
| ArgTypes.Pairs | shinyutils/argp.py:306-317 | the dictionary fold over the pieces; when it fails, the error is that of one of the pieces |
| ArgTypes.KeyValuePairs | shinyutils/argp.py:304-320 | the loop that fills the dictionary computes exactly `Pairs` of the comma-separated pieces, each value converted by `Convert` |
| ArgTypes.PairsSucceeds | shinyutils/argp.py:307-319 | a dictionary comes out exactly when every piece holds exactly one `=` |
| ArgTypes.PairsFirstError | shinyutils/argp.py:307-319 | once the pieces before piece j have been stored, a piece j that does not unpack makes the whole call fail with its error |
| ArgTypes.PairsKeys | shinyutils/argp.py:308-317 | the dictionary's keys are exactly the pieces' keys |
| ArgTypes.PairsLastWins | shinyutils/argp.py:317 | a later duplicate key overwrites the earlier one: each key holds the converted value of the last piece naming it |

## Left out

- Word wrapping with `textwrap.fill`, the indent computation and `_HELP_WIDTH` (argp.py:53-56, 116-125). They rely on a library algorithm, on the terminal size and on the byte length of colour codes.
- All colouring: `_color_helper`, the `_COLOR_*` roles, `_DUMMY_CMV` and the regular-expression recolouring after wrapping (argp.py:29-51, 127-167). These are ANSI codes from a foreign library and regex look-behind matching. The placeholder restore is modelled on the unwrapped, uncoloured annotation.
- The text argparse produces for an action (`super()._format_action`, `_format_action_invocation`, `_metavar_formatter`, `_get_default_metavar_*`, `__init__`, `add_usage`). The base text is a parameter of `Composed`. The invocation is modelled only up to the list of option strings passed to argparse.
- The in-place edits of `action.option_strings[0]` and `action.help` (argp.py:59-66). They are never undone. The model covers the first rendering of an action only. A second rendering of the same parser (for example `format_help()` and then `print_help()`) reads the help as `"\b"`, so the user's help is lost and `" \b"` is appended in its place. For an action with `nargs == 0` and option strings (argp.py:59), the first option string also gets a second dummy metavar. `FormatAction` reads `a.help` afresh on every call, so it does not capture this.
- `InputFileType`, `OutputFileType`, `InputDirectoryType`, `OutputDirectoryType`: filesystem access and logging. `ClassType`: it depends on `shinyutils.subcls`, which is not part of this model.
- `float()` in `KeyValuePairsType`. Floating-point parsing is not modelled: the predicate `isFloat` says whether `float(v)` succeeds, and a float is kept as its text.
- Dictionary insertion order in `KeyValuePairsType`: the result is a `map`.
- The exact ValueError text that `KeyValuePairsType` wraps in ArgumentTypeError: an `UnpackError` value stands for it.
- `int()` on non-ASCII digits and non-ASCII whitespace. Only ASCII digits, underscores, signs and ASCII whitespace are modelled.
- IntLiteral.ParseInt: does not model the limit on integer string conversion. Since Python 3.11 and the 2022 security releases, `int()` raises ValueError on more than 4300 digits by default, and the limit is a runtime setting. So `comma_separated_ints("1" * 4301)` raises ArgumentTypeError in Python, while `ArgTypes.CommaSeparatedInts` succeeds. The value of `"a=" + "1" * 4301` in `KeyValuePairsType` falls through to `float()`, while `ArgTypes.Convert` gives `Int`.
- IntLiteral.ParseShow: `int(str(n)) == n` holds in Python only below that limit, because `str(n)` raises ValueError too for a larger `n`.
- Choices that are not a sequence. `HelpFormatter.Action` holds the choices as a sequence of their `str()`. A dict or a set of choices has no `.index`, so argp.py:78 raises AttributeError, which the `except ValueError` at argp.py:79 does not catch. argparse keeps the subcommands of `add_subparsers` in a dict. `HelpFormatter.AnnotationAsWritten` records this failure (see "Findings"), and the rest of the model uses the intended behaviour, `HelpFormatter.Annotation`.
- HelpFormatter.AnnotationAsWritten: does not cover choices given as a `str`, which argparse accepts as a container of one-character choices. Its `.index` searches for a substring and takes only a `str`, so argp.py:78 differs from `Annotation` in two ways:
  - `choices="rw"` with default None: `"rw".index(None)` raises TypeError, which `except ValueError` does not catch, so formatting the help raises, while `Annotation` gives `({r/w} optional)`.
  - Choices `"ab"` with default `"ab"`: `.index` finds the substring at 0, so `[a]` is marked and ` optional` is left off, while `Annotation` marks nothing and appends ` optional`.

  The model's `Default` holds only the default's `str()`, so it cannot tell which defaults raise TypeError.
- Python values other than strings: choices and defaults are given by their `str()`, and string equality stands for `==`. For example, `1 == 1.0` is not captured.
- Strings.Strip: the contract does not state that the result is the middle part of the input. It states only the properties of the ends that the model relies on.

## Findings

| source | as written | input that shows it | evidently intended | confidence | as-written member | corrected member |
|---|---|---|---|---|---|---|
| shinyutils/argp.py:77-80 | `action.choices.index(action.default)` is looked up on the choices container, and only ValueError is caught | a parser with `add_subparsers()` and the subcommands `run` and `test`: its choices are a dict, so `.index` raises AttributeError while formatting the help (HelpFormatter.SubcommandsHelpRaises) | index the list of the choices' elements, as `choice_strs` does, so that an argument with choices always gets its annotation | not executed | HelpFormatter.AnnotationAsWritten | HelpFormatter.Annotation |
