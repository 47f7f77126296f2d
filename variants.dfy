/** Where the filters of the two scripts part ways: main.py keeps every
    non-empty line, cse/main.py only those longer than 50 characters. */
module Variants {
  import Lines
  import CseMain
  import RootMain

  /** A line of at most 50 characters survives the filter of main.py and not
      the one of cse/main.py. */
  lemma ShortLineKeptOnlyInMain(line: string)
    requires line != [] && Lines.NoBreak(line) && Lines.IsStripped(line)
    requires |line| <= CseMain.MinLineLength
    ensures RootMain.BodyText(line) == line
    ensures Lines.VisibleText(line, CseMain.MinLineLength) == ""
  {
    Lines.SingleLine(line, 0);
    Lines.SingleLine(line, CseMain.MinLineLength);
  }
}
