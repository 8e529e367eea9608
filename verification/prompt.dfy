/**
 * The console prompt of the interactive mode (`credit_calculator/prompt.py`):
 * it renders a question with an optional menu, remembers the menu letters and
 * the default entry, and interprets the line the user typed.
 */
module Prompts {
  import opened Wrappers
  import opened Text
  import opened Choices

  /** The menu lines of `choices`, in order. */
  function Shows(choices: seq<Choice>): (lines: seq<string>)
    ensures |lines| == |choices|
  {
    if choices == [] then [] else Shows(choices[..|choices| - 1]) + [choices[|choices| - 1].Show()]
  }

  lemma {:induction false} ShowsAt(choices: seq<Choice>)
    ensures forall k :: 0 <= k < |choices| ==> Shows(choices)[k] == choices[k].Show()
  {
    if choices != [] {
      var init := choices[..|choices| - 1];
      ShowsAt(init);
      assert forall k :: 0 <= k < |init| ==> init[k] == choices[k];
    }
  }

  /** The letters of `choices`. */
  function Letters(choices: seq<Choice>): set<string> {
    if choices == [] then {} else Letters(choices[..|choices| - 1]) + {choices[|choices| - 1].choice}
  }

  /** The letters are exactly those of the entries. */
  lemma {:induction false} LettersOfEntries(choices: seq<Choice>)
    ensures forall c :: c in choices ==> c.choice in Letters(choices)
    ensures forall x :: x in Letters(choices) ==> exists c :: c in choices && c.choice == x
  {
    if choices != [] {
      var init := choices[..|choices| - 1];
      LettersOfEntries(init);
      assert choices == init + [choices[|choices| - 1]];
    }
  }

  /** No entry from index `lo` on is flagged as default. */
  predicate NoDefaultFrom(choices: seq<Choice>, lo: int) {
    forall j :: 0 <= j < |choices| && lo <= j ==> !choices[j].default
  }

  /**
   * The default entry after walking `choices` from `current`: each entry
   * flagged as default replaces the one before.
   */
  function LastDefault(choices: seq<Choice>, current: Option<Choice>): Option<Choice> {
    if choices == [] then current
    else if choices[|choices| - 1].default then Some(choices[|choices| - 1])
    else LastDefault(choices[..|choices| - 1], current)
  }

  /** The walk ends on the last flagged entry, or on `current` when no entry is flagged. */
  lemma {:induction false} LastDefaultIsLastFlagged(choices: seq<Choice>, current: Option<Choice>)
    ensures NoDefaultFrom(choices, 0) ==> LastDefault(choices, current) == current
    ensures forall k :: 0 <= k < |choices| && choices[k].default && NoDefaultFrom(choices, k + 1)
                       ==> LastDefault(choices, current) == Some(choices[k])
  {
    if choices != [] && !choices[|choices| - 1].default {
      var init := choices[..|choices| - 1];
      LastDefaultIsLastFlagged(init, current);
      forall k | 0 <= k < |choices| && choices[k].default && NoDefaultFrom(choices, k + 1)
        ensures LastDefault(choices, current) == Some(choices[k])
      {
        assert k < |init| && init[k] == choices[k];
        assert NoDefaultFrom(init, k + 1);
      }
      assert NoDefaultFrom(choices, 0) ==> NoDefaultFrom(init, 0);
    }
  }

  /** Walking the same entries a second time changes nothing. */
  lemma {:induction false} LastDefaultIdempotent(choices: seq<Choice>, current: Option<Choice>)
    ensures LastDefault(choices, LastDefault(choices, current)) == LastDefault(choices, current)
  {
    if choices != [] && !choices[|choices| - 1].default {
      LastDefaultIdempotent(choices[..|choices| - 1], current);
    }
  }

  /** One more entry walked: its line, its letter and possibly a new default. */
  lemma WalkOneMore(entries: seq<Choice>, k: int, current: Option<Choice>)
    requires 0 <= k < |entries|
    ensures Shows(entries[..k + 1]) == Shows(entries[..k]) + [entries[k].Show()]
    ensures Letters(entries[..k + 1]) == Letters(entries[..k]) + {entries[k].choice}
    ensures LastDefault(entries[..k + 1], current)
         == if entries[k].default then Some(entries[k]) else LastDefault(entries[..k], current)
  {
    assert entries[..k + 1][..k] == entries[..k];
  }

  /**
   * What `_build_prompt` displays: `text` and ": " without a menu; otherwise
   * `text`, the menu lines joined by newlines, ": " and a "> " line.
   */
  function MenuText(text: string, choices: seq<Choice>): string {
    if choices == [] then text + ": "
    else text + "\n" + Join(Shows(choices), "\n") + ": \n> "
  }

  /** The end of a menu splits into the ": " that closes the last line and the "> " line. */
  lemma PromptTailLines()
    ensures Split(": \n> ", '\n') == [": ", "> "]
  {
    assert Split("", '\n') == [""];
    assert "> " + "" == "> ";
    SplitAfterPlainPart("> ", "", '\n');
    assert Split("> ", '\n') == ["> "];
    SplitAtSeparator("> ", '\n');
    assert "\n> " == ['\n'] + "> ";
    assert Split("\n> ", '\n') == ["", "> "];
    assert ": \n> " == ": " + "\n> ";
    SplitAfterPlainPart(": ", "\n> ", '\n');
    assert ": " + "" == ": ";
  }

  /**
   * Read back line by line, a menu shows the question, then one line per
   * entry in the given order, the last one running on into ": ", then "> "
   * (`RunOnSlices` spells the list out).
   */
  lemma MenuLines(text: string, choices: seq<Choice>)
    requires choices != []
    requires '\n' !in text
    requires forall k :: 0 <= k < |choices| ==> '\n' !in choices[k].Show()
    ensures Split(MenuText(text, choices), '\n') == [text] + RunOn(Shows(choices), [": ", "> "])
  {
    ShowsWithoutBreaks(choices);
    MenuOfLines(text, Shows(choices));
  }

  /** Entries whose lines have no newline give displayed lines without one. */
  lemma ShowsWithoutBreaks(choices: seq<Choice>)
    requires forall k :: 0 <= k < |choices| ==> '\n' !in choices[k].Show()
    ensures forall k :: 0 <= k < |Shows(choices)| ==> '\n' !in Shows(choices)[k]
  {
    ShowsAt(choices);
  }

  /** The same, for the displayed lines themselves. */
  lemma MenuOfLines(text: string, shows: seq<string>)
    requires shows != []
    requires '\n' !in text
    requires forall k :: 0 <= k < |shows| ==> '\n' !in shows[k]
    ensures Split(text + "\n" + Join(shows, "\n") + ": \n> ", '\n') == [text] + RunOn(shows, [": ", "> "])
  {
    var body := Join(shows, "\n") + ": \n> ";
    MenuBodyLines(shows);
    FirstLineBreak(text, Join(shows, "\n"));
    SplitFirstPart(text, body, '\n');
  }

  lemma FirstLineBreak(text: string, lines: string)
    ensures text + "\n" + lines + ": \n> " == text + (['\n'] + (lines + ": \n> "))
  {
    assert "\n" == ['\n'];
  }

  /** The menu lines and the prompt tail, read back line by line. */
  lemma MenuBodyLines(shows: seq<string>)
    requires shows != []
    requires forall k :: 0 <= k < |shows| ==> '\n' !in shows[k]
    ensures Split(Join(shows, "\n") + ": \n> ", '\n') == RunOn(shows, [": ", "> "])
  {
    PromptTailLines();
    assert "\n" == ['\n'];
    SplitJoinThen(shows, '\n', ": \n> ");
  }

  /**
   * The answer `prompt` returns for the lower-cased `input`: the default's
   * letter for an empty line when there is a default, the input otherwise.
   */
  function Reply(input: string, defaultChoice: Option<Choice>): (r: string)
    ensures defaultChoice.None? ==> r == input
    ensures input != "" ==> r == input
    ensures input == "" && defaultChoice.Some? ==> r == defaultChoice.value.choice
  {
    if input == "" && defaultChoice.Some? then defaultChoice.value.choice else input
  }

  /** A console prompt: its question, its menu, and what it has learnt from it. */
  class Prompt {
    var text: string
    var choices: seq<Choice>
    var acceptedValues: set<string>
    var defaultChoice: Option<Choice>
    var choice: Option<string>

    /** A prompt for `text` with the menu `choices`, nothing accepted, no default, no answer yet. */
    constructor(text: string, choices: seq<Choice>)
      ensures this.text == text && this.choices == choices
      ensures acceptedValues == {} && defaultChoice == None && choice == None
    {
      this.text := text;
      this.choices := choices;
      acceptedValues := {};
      defaultChoice := None;
      choice := None;
    }

    /**
     * `_build_prompt`: renders the question and menu, adds every letter to
     * the accepted values and takes the last flagged entry as the default.
     */
    method BuildPrompt() returns (output: string)
      modifies this
      ensures output == MenuText(text, choices)
      ensures text == old(text) && choices == old(choices) && choice == old(choice)
      ensures acceptedValues == old(acceptedValues) + Letters(choices)
      ensures defaultChoice == LastDefault(choices, old(defaultChoice))
      ensures forall c :: c in choices ==> c.choice in acceptedValues
    {
      if choices == [] {
        output := text + ": ";
        return;
      }
      output := text + "\n";
      var entries := choices;
      var choiceList: seq<string> := [];
      var k := 0;
      while k < |entries|
        invariant entries == choices
        invariant text == old(text) && choices == old(choices) && choice == old(choice)
        invariant 0 <= k <= |entries|
        invariant choiceList == Shows(entries[..k])
        invariant acceptedValues == old(acceptedValues) + Letters(entries[..k])
        invariant defaultChoice == LastDefault(entries[..k], old(defaultChoice))
      {
        var c := entries[k];
        WalkOneMore(entries, k, old(defaultChoice));
        choiceList := choiceList + [c.Show()];
        acceptedValues := acceptedValues + {c.choice};
        if c.default {
          defaultChoice := Some(c);
        }
        k := k + 1;
      }
      assert entries[..k] == choices;
      LettersOfEntries(choices);
      var choiceText := Join(choiceList, "\n");
      output := output + choiceText + ": \n> ";
    }

    /**
     * `prompt`, with the typed line passed in: shows the prompt, lower-cases
     * the line, and answers with the default's letter for an empty line when
     * there is a default; otherwise records the line as the choice and answers it.
     */
    method Ask(line: string) returns (shown: string, answer: string)
      modifies this
      ensures shown == MenuText(text, choices)
      ensures text == old(text) && choices == old(choices)
      ensures acceptedValues == old(acceptedValues) + Letters(choices)
      ensures defaultChoice == LastDefault(choices, old(defaultChoice))
      ensures answer == Reply(Lower(line), defaultChoice)
      ensures Lower(line) == "" && defaultChoice.Some? ==> choice == old(choice)
      ensures !(Lower(line) == "" && defaultChoice.Some?) ==> choice == Some(Lower(line))
    {
      shown := BuildPrompt();
      var userInput := Lower(line);
      if userInput == "" && defaultChoice.Some? {
        answer := defaultChoice.value.choice;
      } else {
        choice := Some(userInput);
        answer := userInput;
      }
    }

    /**
     * `int_prompt`: the answer converted by `parse` (Python's `int`), or 0
     * when the conversion fails.
     */
    method IntPrompt(line: string, parse: string -> Option<int>) returns (shown: string, n: int)
      modifies this
      ensures shown == MenuText(text, choices)
      ensures text == old(text) && choices == old(choices)
      ensures acceptedValues == old(acceptedValues) + Letters(choices)
      ensures defaultChoice == LastDefault(choices, old(defaultChoice))
      ensures n == parse(Reply(Lower(line), defaultChoice)).GetOr(0)
      ensures Lower(line) == "" && defaultChoice.Some? ==> choice == old(choice)
      ensures !(Lower(line) == "" && defaultChoice.Some?) ==> choice == Some(Lower(line))
    {
      var answer;
      shown, answer := Ask(line);
      n := match parse(answer) case Some(v) => v case None => 0;
    }

    /**
     * `float_prompt`: the answer converted by `parse` (Python's `float`), or
     * 0 when the conversion fails.
     */
    method FloatPrompt(line: string, parse: string -> Option<real>) returns (shown: string, x: real)
      modifies this
      ensures shown == MenuText(text, choices)
      ensures text == old(text) && choices == old(choices)
      ensures acceptedValues == old(acceptedValues) + Letters(choices)
      ensures defaultChoice == LastDefault(choices, old(defaultChoice))
      ensures x == parse(Reply(Lower(line), defaultChoice)).GetOr(0.0)
      ensures Lower(line) == "" && defaultChoice.Some? ==> choice == old(choice)
      ensures !(Lower(line) == "" && defaultChoice.Some?) ==> choice == Some(Lower(line))
    {
      var answer;
      shown, answer := Ask(line);
      x := match parse(answer) case Some(v) => v case None => 0.0;
    }
  }

  /**
   * Building the prompt twice leaves the accepted letters and the default as
   * one build left them.
   */
  lemma RebuildIdempotent(choices: seq<Choice>, accepted: set<string>, current: Option<Choice>)
    ensures (accepted + Letters(choices)) + Letters(choices) == accepted + Letters(choices)
    ensures LastDefault(choices, LastDefault(choices, current)) == LastDefault(choices, current)
  {
    LastDefaultIdempotent(choices, current);
  }
}
