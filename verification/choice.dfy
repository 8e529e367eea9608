/** A menu entry of an interactive prompt (`credit_calculator/choice.py`). */
module Choices {
  import opened Text

  /**
   * The letter the user answers with, what it stands for, and whether it is
   * the prompt's default; the flag is off unless given.
   */
  datatype Choice = Choice(choice: string, description: string, default: bool := false)
  {
    /** `'<choice>' - <description>`, the part of the menu line every entry has. */
    function Label(): string {
      "'" + choice + "' - " + description
    }

    /** What follows the label: " (default)" for the default entry, else nothing. */
    function Marker(): string {
      if default then " (default)" else ""
    }

    /** The menu line: the label, then the marker. */
    function Show(): string {
      Label() + Marker()
    }
  }

  /** A choice keeps what it was given, and is not the default unless asked to be. */
  lemma ChoiceStoresArguments(choice: string, description: string)
    ensures Choice(choice, description).choice == choice
    ensures Choice(choice, description).description == description
    ensures !Choice(choice, description).default
  {
  }

  /**
   * The line starts with the quoted letter, " - " and the description, and
   * ends there unless the entry is the default, which adds " (default)" and
   * nothing else.
   */
  lemma ShowShape(c: Choice)
    ensures |c.Label()| == |c.choice| + |c.description| + 5
    ensures c.Label()[0] == '\'' && c.Label()[1..|c.choice| + 1] == c.choice
    ensures c.Label()[|c.choice| + 1..|c.choice| + 5] == "' - " && c.Label()[|c.choice| + 5..] == c.description
    ensures |c.Show()| >= |c.Label()| && c.Show()[..|c.Label()|] == c.Label()
    ensures c.default ==> c.Show()[|c.Label()|..] == " (default)"
    ensures !c.default ==> c.Show() == c.Label()
  {
  }

  /** The line is a quote, the letter, a quote, then the rest. */
  lemma ShowParts(c: Choice)
    ensures c.Show() == ['\''] + (c.choice + ['\''] + (" - " + c.description + c.Marker()))
  {
    var l, d, m := c.choice, c.description, c.Marker();
    assert c.Show() == "'" + l + "' - " + d + m;
    assert "'" + l + "' - " + d + m == ['\''] + (l + ['\''] + (" - " + d + m));
  }

  /**
   * Two entries with the same default flag and letters without a quote are
   * displayed alike only when they are the same entry: the line gives back
   * the letter and the description.
   */
  lemma ShowInjective(c1: Choice, c2: Choice)
    requires '\'' !in c1.choice && '\'' !in c2.choice
    requires c1.default == c2.default
    requires c1.Show() == c2.Show()
    ensures c1 == c2
  {
    ShowParts(c1);
    ShowParts(c2);
    var m := c1.Marker();
    var r1 := " - " + c1.description + m;
    var r2 := " - " + c2.description + m;
    assert c1.choice + ['\''] + r1 == c2.choice + ['\''] + r2 by {
      assert c1.Show()[1..] == c2.Show()[1..];
    }
    SameFirstWord(c1.choice, r1, c2.choice, r2, '\'');
    SameMiddle(" - ", c1.description, c2.description, m);
  }

  /** The default flag alone does not show in the line: a description can end with the marker itself. */
  lemma ShowAmbiguousAcrossFlags()
    ensures Choice("a", "x (default)", false).Show() == Choice("a", "x", true).Show()
  {
    var plain, flagged := Choice("a", "x (default)", false), Choice("a", "x", true);
    ShowParts(plain);
    ShowParts(flagged);
    assert " - " + plain.description + plain.Marker() == " - " + flagged.description + flagged.Marker();
  }
}
