/** The text decisions of `LazyHelpFormatter` in argp.py: the trailing
    annotation ("hext") of one argument, how it is joined to the base text
    and the help, the option strings shown in the invocation, and the
    relabelled section headings. Wrapping and colouring are not modelled. */
module HelpFormatter {
  import opened Wrappers
  import opened Strings

  /** `_CHOICE_SEP`: separates choices and joined option strings. */
  const ChoiceSep: char := '/'
  /** `_UNICODE_REPL`: stands in for a separator inside a choice. */
  const Placeholder: char := '\U{FFFC}'
  /** `_DEFAULT_CHOICE_WRAP`: brackets the default choice. */
  const WrapOpen: char := '['
  const WrapClose: char := ']'
  /** argparse's `SUPPRESS`, a plain string. */
  const Suppress: string := "==SUPPRESS=="
  const Newline: set<char> := {'\n'}

  /** An argument's default: argparse's None, or a value, given by its
      `str()`; a suppressed default is `Given(Suppress)`. */
  datatype Default = NoDefault | Given(value: string)

  /** The parts of an argparse action that the formatter reads. Choices are
      given by their `str()`, and equal strings stand for equal values.
      `help` is "" when the action has none; `nargsIsZero` is `nargs == 0`. */
  datatype Action = Action(
    optionStrings: seq<string>,
    dest: string,
    nargsIsZero: bool,
    choices: Option<seq<string>>,
    required: bool,
    defaultValue: Default,
    help: string)

  /** `if action.choices:` — None and an empty list are both false. */
  predicate HasChoices(a: Action)
  {
    a.choices.Some? && |a.choices.value| > 0
  }

  predicate IsPositional(a: Action)
  {
    a.optionStrings == []
  }

  /* ---------------- choices ---------------- */

  /** A choice with every separator replaced by the placeholder. */
  function HideSeparators(c: string): (r: string)
    ensures |r| == |c| && ChoiceSep !in r
  {
    ReplaceCharRemoves(c, ChoiceSep, Placeholder);
    ReplaceChar(c, ChoiceSep, Placeholder)
  }

  /** The placeholders put back as separators. */
  function RestoreSeparators(s: string): (r: string)
    ensures |r| == |s| && Placeholder !in r
    ensures forall i :: 0 <= i < |s| && s[i] != Placeholder ==> r[i] == s[i]
  {
    ReplaceCharRemoves(s, Placeholder, ChoiceSep);
    ReplaceChar(s, Placeholder, ChoiceSep)
  }

  /** Restoring a hidden choice gives the choice back, unless it already
      held the placeholder character. */
  lemma RestoreHidden(c: string)
    requires Placeholder !in c
    ensures RestoreSeparators(HideSeparators(c)) == c
  {
    ReplaceCharRoundTrip(c, ChoiceSep, Placeholder);
  }

  predicate IsDefault(c: string, d: Default)
  {
    d.Given? && d.value == c
  }

  /** `c` at index `i` is the first choice equal to the default. */
  predicate IsFirstDefault(cs: seq<string>, d: Default, i: nat)
    requires i < |cs|
  {
    IsDefault(cs[i], d) && forall j :: 0 <= j < i ==> !IsDefault(cs[j], d)
  }

  /** `choices.index(default)`: the first index holding the default, or
      None where Python raises ValueError. */
  function DefaultIndex(cs: seq<string>, d: Default): (r: Option<nat>)
    ensures r.Some? ==> r.value < |cs| && IsFirstDefault(cs, d, r.value)
    ensures r.None? <==> forall j :: 0 <= j < |cs| ==> !IsDefault(cs[j], d)
  {
    if cs == [] then None
    else if IsDefault(cs[0], d) then Some(0)
    else
      match DefaultIndex(cs[1..], d)
      case Some(k) =>
        assert forall j :: 1 <= j <= k ==> cs[j] == cs[1..][j - 1];
        Some(k + 1)
      case None =>
        assert forall j :: 1 <= j < |cs| ==> cs[j] == cs[1..][j - 1];
        None
  }

  function Bracket(c: string): string
  {
    [WrapOpen] + c + [WrapClose]
  }

  /** `choice_strs` after marking: every choice with its separators hidden,
      the first one equal to the default in brackets. */
  function MarkedChoices(cs: seq<string>, d: Default): (r: seq<string>)
    ensures |r| == |cs|
    ensures forall i :: 0 <= i < |cs| ==> ChoiceSep !in r[i]
    ensures forall i :: 0 <= i < |cs| ==>
              r[i] == if IsFirstDefault(cs, d, i) then Bracket(HideSeparators(cs[i])) else HideSeparators(cs[i])
  {
    var k := DefaultIndex(cs, d);
    seq(|cs|, i requires 0 <= i < |cs| => if k == Some(i) then Bracket(HideSeparators(cs[i])) else HideSeparators(cs[i]))
  }

  /** The choice set `{c1/c2/...}`. */
  function ChoiceSet(cs: seq<string>, d: Default): (r: string)
    ensures |r| >= 2 && r[0] == '{' && r[|r| - 1] == '}'
    ensures |cs| >= 1 ==> Count(r, ChoiceSep) == |cs| - 1
  {
    var inner := Join(ChoiceSep, MarkedChoices(cs, d));
    JoinCount(ChoiceSep, MarkedChoices(cs, d));
    CountAppend("{" + inner, "}", ChoiceSep);
    CountAppend("{", inner, ChoiceSep);
    assert Count("{", ChoiceSep) == 0 && Count("}", ChoiceSep) == 0;
    "{" + inner + "}"
  }

  /* ---------------- the annotation ---------------- */

  /** The annotation `hext` of `_format_action`, None where the source has None. */
  function Annotation(a: Action): (r: Option<string>)
    ensures r.Some? ==> |r.value| >= 2 && r.value[0] == '(' && r.value[|r.value| - 1] == ')'
    ensures r.None? <==> !HasChoices(a) && (IsPositional(a) || (!a.required && a.defaultValue == Given(Suppress)))
  {
    if HasChoices(a) then
      var cs := a.choices.value;
      var choiceSet := ChoiceSet(cs, a.defaultValue);
      if a.required && !IsPositional(a) then Some("(" + choiceSet + " required)")
      else if DefaultIndex(cs, a.defaultValue).None? && !IsPositional(a) then Some("(" + choiceSet + " optional)")
      else Some("(" + choiceSet + ")")
    else if IsPositional(a) then None
    else if a.required then Some("(required)")
    else if a.defaultValue == NoDefault then Some("(optional)")
    else if a.defaultValue.value != Suppress then Some("(default: " + a.defaultValue.value + ")")
    else None
  }

  /** What holds `action.choices`: a list or a tuple, whose `.index` finds
      an equal element; or a dict (argparse keeps the subcommands of
      `add_subparsers` in one) or a set, which has no `.index`. A `str`
      container, whose `.index` searches for a substring, is neither. */
  datatype ChoicesKind = Indexable | Unindexable

  /** The exception `choices.index(default)` raises on a container without `.index`. */
  datatype FormatError = AttributeError

  /** The annotation as argp.py:77-80 computes it: `.index` is looked up on
      the choices container itself, and only ValueError is caught, so a
      non-empty container without `.index` makes the whole call raise.
      `Annotation` is the intended behaviour, which indexes the list of
      the container's elements. */
  function AnnotationAsWritten(a: Action, kind: ChoicesKind): (r: Result<Option<string>, FormatError>)
    ensures r.Failure? <==> HasChoices(a) && kind == Unindexable
    ensures r.Success? ==> r.value == Annotation(a)
  {
    if HasChoices(a) && kind == Unindexable then Failure(AttributeError)
    else Success(Annotation(a))
  }

  /** The subparsers action of a parser with the subcommands `run` and
      `test`, as `add_subparsers()` creates it: positional, its dest
      SUPPRESS, its choices a dict of the subcommand names, no help. */
  function SubcommandsAction(): Action
  {
    Action([], Suppress, false, Some(["run", "test"]), false, NoDefault, "")
  }

  /** Formatting the help of a parser with subcommands raises as written,
      where the intended annotation is the set of subcommand names. */
  lemma SubcommandsHelpRaises()
    ensures AnnotationAsWritten(SubcommandsAction(), Unindexable) == Failure(AttributeError)
    ensures Annotation(SubcommandsAction()).Some?
  {
    assert HasChoices(SubcommandsAction());
  }

  /** `_format_action` up to `hext`: hides the separators, marks the
      default in place in the list of choice strings, joins them and wraps
      the set. */
  method FormatAnnotation(a: Action) returns (hext: Option<string>)
    ensures hext == Annotation(a)
  {
    if HasChoices(a) {
      var cs := a.choices.value;
      var choiceStrs := seq(|cs|, i requires 0 <= i < |cs| => HideSeparators(cs[i]));
      var defPos := DefaultIndex(cs, a.defaultValue);
      if defPos.Some? {
        var c := choiceStrs[defPos.value];
        choiceStrs := choiceStrs[defPos.value := [WrapOpen] + c + [WrapClose]];
      }
      assert choiceStrs == MarkedChoices(cs, a.defaultValue);
      var choiceSet := "{" + Join(ChoiceSep, choiceStrs) + "}";
      if a.required && a.optionStrings != [] {
        hext := Some("(" + choiceSet + " required)");
      } else if defPos.None? && a.optionStrings != [] {
        hext := Some("(" + choiceSet + " optional)");
      } else {
        hext := Some("(" + choiceSet + ")");
      }
    } else if a.optionStrings == [] {
      hext := None;
    } else if a.required {
      hext := Some("(required)");
    } else if a.defaultValue.NoDefault? {
      hext := Some("(optional)");
    } else if a.defaultValue.value != Suppress {
      hext := Some("(default: " + a.defaultValue.value + ")");
    } else {
      hext := None;
    }
  }

  /** With choices, the set is followed by " required" for a required
      option, else by " optional" for an option whose default is not a
      choice, else by nothing; a positional always gets the bare set. */
  lemma AnnotationWithChoices(a: Action)
    requires HasChoices(a)
    ensures var s := ChoiceSet(a.choices.value, a.defaultValue);
      && (a.required && !IsPositional(a) ==> Annotation(a) == Some("(" + s + " required)"))
      && ((!a.required && !IsPositional(a)
           && (forall i :: 0 <= i < |a.choices.value| ==> !IsDefault(a.choices.value[i], a.defaultValue)))
          ==> Annotation(a) == Some("(" + s + " optional)"))
      && ((!a.required && (exists i :: 0 <= i < |a.choices.value| && IsDefault(a.choices.value[i], a.defaultValue)))
          ==> Annotation(a) == Some("(" + s + ")"))
      && (IsPositional(a) ==> Annotation(a) == Some("(" + s + ")"))
  {
  }

  /** Without choices exactly one rung of the ladder applies: nothing for a
      positional, then "(required)", "(optional)" for no default, the
      default value, and nothing for a suppressed default. */
  lemma AnnotationWithoutChoices(a: Action)
    requires !HasChoices(a)
    ensures IsPositional(a) ==> Annotation(a) == None
    ensures !IsPositional(a) && a.required ==> Annotation(a) == Some("(required)")
    ensures !IsPositional(a) && !a.required && a.defaultValue == NoDefault ==> Annotation(a) == Some("(optional)")
    ensures (!IsPositional(a) && !a.required && a.defaultValue.Given? && a.defaultValue.value != Suppress)
         ==> Annotation(a) == Some("(default: " + a.defaultValue.value + ")")
    ensures !IsPositional(a) && !a.required && a.defaultValue == Given(Suppress) ==> Annotation(a) == None
  {
  }

  /** Only the first choice equal to the default is altered, by brackets;
      when the default is not a choice, none is. */
  lemma DefaultMarking(cs: seq<string>, d: Default)
    ensures forall i :: 0 <= i < |cs| ==>
              (MarkedChoices(cs, d)[i] != HideSeparators(cs[i]) <==> DefaultIndex(cs, d) == Some(i))
    ensures forall i, j :: 0 <= i < j < |cs| ==>
              MarkedChoices(cs, d)[i] == HideSeparators(cs[i]) || MarkedChoices(cs, d)[j] == HideSeparators(cs[j])
    ensures (forall i :: 0 <= i < |cs| ==> !IsDefault(cs[i], d)) ==>
              forall i :: 0 <= i < |cs| ==> MarkedChoices(cs, d)[i] == HideSeparators(cs[i])
  {
    var m := MarkedChoices(cs, d);
    forall i | 0 <= i < |cs|
      ensures m[i] != HideSeparators(cs[i]) <==> DefaultIndex(cs, d) == Some(i)
    {
      if IsFirstDefault(cs, d, i) {
        assert |m[i]| == |HideSeparators(cs[i])| + 2;
      }
      var k := DefaultIndex(cs, d);
      if k.Some? && k.value != i {
        assert !IsFirstDefault(cs, d, i) by {
          if k.value < i {
            assert IsDefault(cs[k.value], d);
          } else {
            assert !IsDefault(cs[i], d);
          }
        }
      }
    }
  }

  /** The choices shown to the reader: the original strings, the first
      default in brackets. */
  function ShownChoices(cs: seq<string>, d: Default): (r: seq<string>)
    ensures |r| == |cs|
  {
    seq(|cs|, i requires 0 <= i < |cs| => if IsFirstDefault(cs, d, i) then Bracket(cs[i]) else cs[i])
  }

  /** Splitting the set's inside at the separator gives one token per
      choice, in declaration order, and restoring the placeholders in a
      token gives its choice back, the default in brackets. This is what
      the placeholder is for: a separator inside a choice never splits it. */
  lemma ChoiceTokens(cs: seq<string>, d: Default)
    requires |cs| >= 1
    requires forall i :: 0 <= i < |cs| ==> Placeholder !in cs[i]
    ensures Split(Join(ChoiceSep, MarkedChoices(cs, d)), ChoiceSep) == MarkedChoices(cs, d)
    ensures forall i :: 0 <= i < |cs| ==> RestoreSeparators(MarkedChoices(cs, d)[i]) == ShownChoices(cs, d)[i]
  {
    SplitJoin(MarkedChoices(cs, d), ChoiceSep);
    RestoreTokens(cs, d);
  }

  /** Restoring each marked token gives the choice as shown. */
  lemma RestoreTokens(cs: seq<string>, d: Default)
    requires forall i :: 0 <= i < |cs| ==> Placeholder !in cs[i]
    ensures forall i :: 0 <= i < |cs| ==> RestoreSeparators(MarkedChoices(cs, d)[i]) == ShownChoices(cs, d)[i]
  {
    var m := MarkedChoices(cs, d);
    forall i | 0 <= i < |cs|
      ensures RestoreSeparators(m[i]) == ShownChoices(cs, d)[i]
    {
      if IsFirstDefault(cs, d, i) {
        RestoreBracketed(cs[i]);
      } else {
        RestoreHidden(cs[i]);
      }
    }
  }

  /** The brackets survive restoring, and so does the hidden choice inside. */
  lemma RestoreBracketed(c: string)
    requires Placeholder !in c
    ensures RestoreSeparators(Bracket(HideSeparators(c))) == Bracket(c)
  {
    var h := HideSeparators(c);
    RestoreHidden(c);
    ReplaceCharAppend([WrapOpen] + h, [WrapClose], Placeholder, ChoiceSep);
    ReplaceCharAppend([WrapOpen], h, Placeholder, ChoiceSep);
  }

  /** Putting the separators back in the whole set gives the set of the
      original choices, the default in brackets. */
  lemma RestoredChoiceSet(cs: seq<string>, d: Default)
    requires |cs| >= 1
    requires forall i :: 0 <= i < |cs| ==> Placeholder !in cs[i]
    ensures RestoreSeparators(ChoiceSet(cs, d)) == "{" + Join(ChoiceSep, ShownChoices(cs, d)) + "}"
  {
    var m := MarkedChoices(cs, d);
    RestoreJoined(cs, d);
    ReplaceCharAppend("{" + Join(ChoiceSep, m), "}", Placeholder, ChoiceSep);
    ReplaceCharAppend("{", Join(ChoiceSep, m), Placeholder, ChoiceSep);
  }

  /** Restoring the joined tokens joins the shown choices. */
  lemma RestoreJoined(cs: seq<string>, d: Default)
    requires forall i :: 0 <= i < |cs| ==> Placeholder !in cs[i]
    ensures RestoreSeparators(Join(ChoiceSep, MarkedChoices(cs, d))) == Join(ChoiceSep, ShownChoices(cs, d))
  {
    var m := MarkedChoices(cs, d);
    RestoreTokens(cs, d);
    ReplaceCharJoin(m, ChoiceSep, Placeholder, ChoiceSep);
    var restored := seq(|m|, i requires 0 <= i < |m| => ReplaceChar(m[i], Placeholder, ChoiceSep));
    assert restored == ShownChoices(cs, d);
  }

  /* ---------------- composing the text ---------------- */

  function AnnotationText(hext: Option<string>): string
  {
    if hext.Some? then hext.value else ""
  }

  /** The text before wrapping: the base without surrounding newlines, the
      help after a space, then the annotation, after a space unless the
      argument is a switch (`nargs == 0`) without help. */
  function Composed(base: string, help: string, hext: Option<string>, nargsIsZero: bool): (r: string)
    ensures Strip(base, Newline) <= r
    ensures |AnnotationText(hext)| <= |r| && r[|r| - |AnnotationText(hext)|..] == AnnotationText(hext)
    ensures r == Strip(base, Newline) <==> help == "" && AnnotationText(hext) == ""
  {
    var fmt := Strip(base, Newline);
    var withHelp := if help != "" then fmt + " " + help else fmt;
    if AnnotationText(hext) != "" then
      withHelp + (if help != "" || !nargsIsZero then " " else "") + AnnotationText(hext)
    else withHelp
  }

  /** Builds the text step by step, as `_format_action` does with `+=`. */
  method Compose(base: string, help: string, hext: Option<string>, nargsIsZero: bool) returns (fmt: string)
    ensures fmt == Composed(base, help, hext, nargsIsZero)
  {
    fmt := Strip(base, Newline);
    if help != "" {
      fmt := fmt + " " + help;
    }
    if hext.Some? && hext.value != "" {
      fmt := fmt + (if help != "" || !nargsIsZero then " " else "") + hext.value;
    }
  }

  /** The non-empty strings of `parts`, in order. */
  function NonEmpty(parts: seq<string>): (r: seq<string>)
    ensures forall i :: 0 <= i < |r| ==> r[i] != ""
  {
    if parts == [] then []
    else if parts[0] == "" then NonEmpty(parts[1..])
    else [parts[0]] + NonEmpty(parts[1..])
  }

  /** Unless the argument is a switch without help, the text is the base,
      the help and the annotation, the empty ones left out, separated by
      single spaces. */
  lemma ComposedIsSpaced(base: string, help: string, hext: Option<string>, nargsIsZero: bool)
    requires Strip(base, Newline) != ""
    requires help != "" || !nargsIsZero
    ensures Composed(base, help, hext, nargsIsZero)
         == Join(' ', NonEmpty([Strip(base, Newline), help, AnnotationText(hext)]))
  {
    ComposedSpacedParts(base, help, hext, nargsIsZero);
    SpacedThree(Strip(base, Newline), help, AnnotationText(hext));
  }

  /** Outside the switch-without-help case, every part after the base is
      preceded by one space. */
  lemma ComposedSpacedParts(base: string, help: string, hext: Option<string>, nargsIsZero: bool)
    requires help != "" || !nargsIsZero
    ensures Composed(base, help, hext, nargsIsZero)
         == (if help != "" then Strip(base, Newline) + " " + help else Strip(base, Newline))
            + (if AnnotationText(hext) != "" then " " + AnnotationText(hext) else "")
  {
  }

  lemma SpacedThree(b: string, help: string, h: string)
    requires b != ""
    ensures (if help != "" then b + " " + help else b) + (if h != "" then " " + h else "")
         == Join(' ', NonEmpty([b, help, h]))
  {
    var parts := [b, help, h];
    assert parts[1..] == [help, h];
    assert [help, h][1..] == [h];
    assert [h][1..] == [];
    assert NonEmpty([h]) == if h == "" then [] else [h];
    assert NonEmpty([help, h]) == (if help == "" then [] else [help]) + NonEmpty([h]);
    assert NonEmpty(parts) == [b] + NonEmpty([help, h]);
    if help != "" && h != "" {
      assert NonEmpty(parts) == [b, help, h];
      assert [b, help, h][1..] == [help, h];
      assert Join(' ', [help, h]) == help + [' '] + h by {
        assert Join(' ', [h]) == h;
      }
      assert Join(' ', [b, help, h]) == b + [' '] + (help + [' '] + h);
    } else if help != "" {
      assert NonEmpty(parts) == [b, help];
      assert [b, help][1..] == [help];
    } else if h != "" {
      assert NonEmpty(parts) == [b, h];
      assert [b, h][1..] == [h];
    } else {
      assert NonEmpty(parts) == [b];
    }
  }

  /** A switch without help gets its annotation right after the base, with
      no space. */
  lemma ComposedSwitchWithoutHelp(base: string, hext: Option<string>)
    ensures Composed(base, "", hext, true) == Strip(base, Newline) + AnnotationText(hext)
  {
  }

  /** `_format_action` up to the wrapping: the annotation of the action
      joined to the base text that argparse produced for it. */
  method FormatAction(a: Action, base: string) returns (fmt: string)
    ensures fmt == Composed(base, a.help, Annotation(a), a.nargsIsZero)
  {
    var hext := FormatAnnotation(a);
    fmt := Compose(base, a.help, hext, a.nargsIsZero);
  }

  /* ---------------- invocation and headings ---------------- */

  /** The option strings `_format_action_invocation` hands to argparse: one
      string joining all of them for an option that takes a value, the
      option strings for a switch, `[dest]` for a positional. */
  function InvocationOptionStrings(a: Action): (r: seq<string>)
    ensures |r| >= 1
    ensures !IsPositional(a) && !a.nargsIsZero ==> |r| == 1 && r[0] == Join(ChoiceSep, a.optionStrings)
    ensures !IsPositional(a) && a.nargsIsZero ==> r == a.optionStrings
    ensures IsPositional(a) ==> r == [a.dest]
  {
    if !IsPositional(a) && !a.nargsIsZero then [Join(ChoiceSep, a.optionStrings)]
    else if !IsPositional(a) then a.optionStrings
    else [a.dest]
  }

  /** For an option that takes a value, when no option string holds the
      separator (it can, under `prefix_chars="/"`), splitting the single
      invocation string at the separator recovers every option string, in
      order. */
  lemma InvocationJoinsOptionStrings(a: Action)
    requires !IsPositional(a) && !a.nargsIsZero
    requires forall i :: 0 <= i < |a.optionStrings| ==> ChoiceSep !in a.optionStrings[i]
    ensures |InvocationOptionStrings(a)| == 1
    ensures Split(InvocationOptionStrings(a)[0], ChoiceSep) == a.optionStrings
  {
    SplitJoin(a.optionStrings, ChoiceSep);
  }

  /** With `prefix_chars="/"`, the option `/f`, `/file` is still shown as
      one string, `/f//file`, which splitting at `/` no longer takes apart
      into its option strings. */
  lemma SlashPrefixInvocation()
    ensures InvocationOptionStrings(Action(["/f", "/file"], "file", false, None, false, NoDefault, ""))
         == ["/f//file"]
  {
    var os := ["/f", "/file"];
    assert os[1..] == ["/file"];
    assert Join(ChoiceSep, ["/file"]) == "/file";
    assert Join(ChoiceSep, os) == "/f" + [ChoiceSep] + "/file";
    assert "/f" + [ChoiceSep] + "/file" == "/f//file";
  }

  /** `start_section`: the two default argparse headings are renamed, any
      other heading is kept. */
  function SectionHeading(heading: string): (r: string)
    ensures heading == "positional arguments" ==> r == "arguments"
    ensures heading == "optional arguments" ==> r == "options"
    ensures r != heading ==> heading in {"positional arguments", "optional arguments"}
  {
    if heading == "positional arguments" then "arguments"
    else if heading == "optional arguments" then "options"
    else heading
  }

  /* ---------------- worked cases ---------------- */

  /** `-n/--num` with choices 1, 2, 3 and default 2 is annotated `({1/[2]/3})`. */
  lemma NumberChoicesExample()
    ensures Annotation(Action(["-n", "--num"], "num", false, Some(["1", "2", "3"]), false, Given("2"), ""))
         == Some("({1/[2]/3})")
  {
    var cs := ["1", "2", "3"];
    var a := Action(["-n", "--num"], "num", false, Some(cs), false, Given("2"), "");
    NumberChoicesSet(cs, Given("2"));
    assert IsDefault(cs[1], Given("2"));
    assert DefaultIndex(cs, Given("2")).Some?;
    assert Annotation(a) == Some("(" + ChoiceSet(cs, Given("2")) + ")");
  }

  lemma NumberChoicesSet(cs: seq<string>, d: Default)
    requires cs == ["1", "2", "3"] && d == Given("2")
    ensures "(" + ChoiceSet(cs, d) + ")" == "({1/[2]/3})"
  {
    NumberChoicesMarked();
    NumberChoicesJoined();
    WrappedChoiceSet(cs, d, ["1", "[2]", "3"], "1/[2]/3");
    NumberChoicesText();
  }

  lemma NumberChoicesText()
    ensures "(" + ("{" + "1/[2]/3" + "}") + ")" == "({1/[2]/3})"
  {
  }

  /** The wrapped set is the joined marked choices between braces and parentheses. */
  lemma WrappedChoiceSet(cs: seq<string>, d: Default, m: seq<string>, joined: string)
    requires MarkedChoices(cs, d) == m && Join(ChoiceSep, m) == joined
    ensures "(" + ChoiceSet(cs, d) + ")" == "(" + ("{" + joined + "}") + ")"
  {
  }

  lemma NumberChoicesJoined()
    ensures Join(ChoiceSep, ["1", "[2]", "3"]) == "1/[2]/3"
  {
    var m := ["1", "[2]", "3"];
    assert m[1..] == ["[2]", "3"];
    assert ["[2]", "3"][1..] == ["3"];
    assert Join(ChoiceSep, ["3"]) == "3";
    assert Join(ChoiceSep, ["[2]", "3"]) == "[2]" + "/" + "3";
    assert Join(ChoiceSep, m) == "1" + "/" + ("[2]" + "/" + "3");
  }

  lemma NumberChoicesMarked()
    ensures MarkedChoices(["1", "2", "3"], Given("2")) == ["1", "[2]", "3"]
  {
    var cs := ["1", "2", "3"];
    assert cs[0] != "2" && cs[2] != "2";
    assert HideSeparators("1") == "1" && HideSeparators("2") == "2" && HideSeparators("3") == "3";
    var m := MarkedChoices(cs, Given("2"));
    assert !IsFirstDefault(cs, Given("2"), 0) && IsFirstDefault(cs, Given("2"), 1) && !IsFirstDefault(cs, Given("2"), 2);
    assert Bracket("2") == "[2]";
    assert m[0] == "1" && m[1] == "[2]" && m[2] == "3";
  }

  /** A `store_true` switch such as `--verbose` has the default False, which
      is neither None nor SUPPRESS, so it is annotated with that default. */
  lemma SwitchDefaultExample()
    ensures Annotation(Action(["--verbose"], "verbose", true, None, false, Given("False"), ""))
         == Some("(default: False)")
  {
    var a := Action(["--verbose"], "verbose", true, None, false, Given("False"), "");
    assert !HasChoices(a);
    assert !IsPositional(a);
    assert a.defaultValue != NoDefault;
    assert a.defaultValue.value != Suppress by {
      assert "False"[0] != Suppress[0];
    }
    assert Annotation(a) == Some("(default: " + "False" + ")");
    assert "(default: " + "False" + ")" == "(default: False)";
  }
}
