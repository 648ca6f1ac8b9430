/** Worked inputs for "copy all": what the clipboard receives for a few concrete
    forms, derived from the general lemmas of Assembly. */
module Scenarios {
  import opened TextUtil
  import opened Assembly

  lemma CoverOurTrip()
    ensures JoinWith(LINE_BREAK, CoverLines(["Our Trip", ""])) == "Our Trip"
  {
    TrimOfUnpadded("Our Trip");
    assert ["Our Trip", ""][1..] == [""];
    assert IsBlank("");
    assert CoverLines([""]) == [];
  }

  lemma MainDayOne()
    ensures JoinWith(LINE_BREAK, MainLines(["Day one", ""], 0)) == "1. Day one"
  {
    TrimOfUnpadded("Day one");
    assert ["Day one", ""][1..] == [""];
    assert IsBlank("");
    assert MainLines([""], 1) == [];
    assert NatToString(1) == "1";
    assert NumberedLine(0, "Day one") == "1" + ". " + "Day one";
    assert "1" + ". " + "Day one" == "1. Day one";
  }

  lemma GlueDateCoverMain()
    ensures Glue(Glue("2024.10.26", "Our Trip"), "1. Day one") == "2024.10.26\n\nOur Trip\n\n1. Day one"
  {
    assert "2024.10.26" + SECTION_BREAK + "Our Trip" == "2024.10.26\n\nOur Trip";
    assert "2024.10.26\n\nOur Trip" + SECTION_BREAK + "1. Day one" == "2024.10.26\n\nOur Trip\n\n1. Day one";
  }

  /** All three sections; the empty second phrase yields no line, and the first
      phrase keeps its number 1. */
  lemma AllSectionsExample()
    ensures Assemble("2024.10.26", ["Our Trip", ""], ["Day one", ""]) == "2024.10.26\n\nOur Trip\n\n1. Day one"
  {
    AssembleAsGlue("2024.10.26", ["Our Trip", ""], ["Day one", ""]);
    TrimOfUnpadded("2024.10.26");
    CoverOurTrip();
    MainDayOne();
    GlueDateCoverMain();
  }

  lemma CoverAB()
    ensures JoinWith(LINE_BREAK, CoverLines(["A", "B"])) == "A\nB"
  {
    TrimOfUnpadded("A");
    TrimOfUnpadded("B");
    assert ["A", "B"][1..] == ["B"];
    assert CoverLines(["B"]) == ["B"];
    assert CoverLines(["A", "B"]) == ["A", "B"];
    assert "A" + LINE_BREAK + "B" == "A\nB";
  }

  lemma MainXY()
    ensures JoinWith(LINE_BREAK, MainLines(["X", "Y"], 0)) == "1. X\n2. Y"
  {
    TrimOfUnpadded("X");
    TrimOfUnpadded("Y");
    assert ["X", "Y"][1..] == ["Y"];
    assert NatToString(1) == "1" && NatToString(2) == "2";
    assert NumberedLine(0, "X") == "1. X" by { assert "1" + ". " + "X" == "1. X"; }
    assert NumberedLine(1, "Y") == "2. Y" by { assert "2" + ". " + "Y" == "2. Y"; }
    assert MainLines(["Y"], 1) == ["2. Y"];
    assert MainLines(["X", "Y"], 0) == ["1. X", "2. Y"];
    assert "1. X" + LINE_BREAK + "2. Y" == "1. X\n2. Y";
  }

  /** No date: the text starts with the cover section. */
  lemma NoDateExample()
    ensures Assemble("", ["A", "B"], ["X", "Y"]) == "A\nB\n\n1. X\n2. Y"
  {
    AssembleAsGlue("", ["A", "B"], ["X", "Y"]);
    assert Trim("") == "";
    CoverAB();
    MainXY();
    assert "A\nB" + SECTION_BREAK + "1. X\n2. Y" == "A\nB\n\n1. X\n2. Y";
  }

  /** Nothing filled in: the text is empty and the clipboard is not called. */
  lemma EmptyFormExample()
    ensures Assemble("", ["", ""], ["", ""]) == ""
    ensures CopyOutcome(Assemble("", ["", ""], ["", ""])) == NothingToCopy
  {
    AssembleAsGlue("", ["", ""], ["", ""]);
  }
}
