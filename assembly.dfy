/** The clipboard text that "copy all" builds from the three field groups: the
    anniversary date, the cover phrases and the numbered main phrases, each group a
    section of lines, sections separated by a blank line. */
module Assembly {
  import opened TextUtil

  const LINE_BREAK: string := "\n"
  const SECTION_BREAK: string := "\n\n"

  /** A field counts as empty when it trims to the empty string. */
  predicate IsBlank(s: string) {
    Trim(s) == []
  }

  /** How many of the fields do not trim to the empty string. */
  function CountNonBlank(fields: seq<string>): (n: nat)
    ensures n <= |fields|
  {
    if fields == [] then 0
    else (if IsBlank(fields[0]) then 0 else 1) + CountNonBlank(fields[1..])
  }

  /** The date section: the trimmed date, when it is not empty. */
  function DateLines(date: string): seq<string> {
    if IsBlank(date) then [] else [Trim(date)]
  }

  /** The cover section: each cover phrase trimmed, empty ones dropped. */
  function CoverLines(cover: seq<string>): seq<string> {
    if cover == [] then []
    else (if IsBlank(cover[0]) then [] else [Trim(cover[0])]) + CoverLines(cover[1..])
  }

  /** The line of the main phrase at 0-based position `index`: its 1-based number,
      a full stop, a space, and the trimmed phrase. */
  function NumberedLine(index: nat, phrase: string): string {
    NatToString(index + 1) + ". " + Trim(phrase)
  }

  /** The main section for `phrases`, the first of which sits at 0-based position
      `start` of the whole list: one numbered line per non-empty phrase. */
  function MainLines(phrases: seq<string>, start: nat): seq<string> {
    if phrases == [] then []
    else
      (if IsBlank(phrases[0]) then [] else [NumberedLine(start, phrases[0])])
      + MainLines(phrases[1..], start + 1)
  }

  /** `sections.push(lines)` under the guard `lines.length > 0`. */
  function Push(sections: seq<seq<string>>, lines: seq<string>): seq<seq<string>> {
    if |lines| > 0 then sections + [lines] else sections
  }

  /** The sections in push order: date, cover, main, each only when it has a line. */
  function Sections(date: string, cover: seq<string>, phrases: seq<string>): seq<seq<string>> {
    Push(Push(Push([], DateLines(date)), CoverLines(cover)), MainLines(phrases, 0))
  }

  /** Each section's lines joined with a line break. */
  function SectionTexts(sections: seq<seq<string>>): (texts: seq<string>)
    ensures |texts| == |sections|
  {
    seq(|sections|, i requires 0 <= i < |sections| => JoinWith(LINE_BREAK, sections[i]))
  }

  /** The text that "copy all" hands to the clipboard. */
  function Assemble(date: string, cover: seq<string>, phrases: seq<string>): string {
    JoinWith(SECTION_BREAK, SectionTexts(Sections(date, cover, phrases)))
  }

  /** What "copy all" does with the assembled text. */
  datatype CopyAction = NothingToCopy | WriteClipboard(text: string)

  /** An empty text reports that there is nothing to copy; any other text is
      written to the clipboard unchanged. */
  function CopyOutcome(text: string): (a: CopyAction)
    ensures a == NothingToCopy <==> text == []
    ensures a.WriteClipboard? ==> a.text == text
  {
    if text != [] then WriteClipboard(text) else NothingToCopy
  }

  /* ---------------- the cover section ---------------- */

  lemma {:induction false} CountNonBlankAppend(a: seq<string>, b: seq<string>)
    ensures CountNonBlank(a + b) == CountNonBlank(a) + CountNonBlank(b)
  {
    if a == [] {
      assert a + b == b;
    } else {
      assert (a + b)[1..] == a[1..] + b;
      CountNonBlankAppend(a[1..], b);
    }
  }

  /** Counting the first `k` fields is counting the first one, then `k - 1` more. */
  lemma CountNonBlankSkipFirst(fields: seq<string>, k: nat)
    requires 0 < k <= |fields|
    ensures CountNonBlank(fields[..k]) == (if IsBlank(fields[0]) then 0 else 1) + CountNonBlank(fields[1..][..k - 1])
  {
    assert fields[..k][1..] == fields[1..][..k - 1];
  }

  /** No field is non-empty exactly when the count of non-empty fields is zero. */
  lemma {:induction false} CountNonBlankZero(fields: seq<string>)
    ensures CountNonBlank(fields) == 0 <==> forall k | 0 <= k < |fields| :: IsBlank(fields[k])
  {
    if fields != [] {
      CountNonBlankZero(fields[1..]);
      assert forall k | 1 <= k < |fields| :: fields[k] == fields[1..][k - 1];
    }
  }

  /** One cover line per non-empty cover phrase. */
  lemma {:induction false} CoverLinesLength(cover: seq<string>)
    ensures |CoverLines(cover)| == CountNonBlank(cover)
  {
    if cover != [] {
      CoverLinesLength(cover[1..]);
    }
  }

  /** The non-empty cover phrase at position `j` appears trimmed, after exactly the
      lines of the non-empty phrases before it: the order is kept. */
  lemma {:induction false} CoverLinesAt(cover: seq<string>, j: nat)
    requires j < |cover| && !IsBlank(cover[j])
    ensures CountNonBlank(cover[..j]) < |CoverLines(cover)|
    ensures CoverLines(cover)[CountNonBlank(cover[..j])] == Trim(cover[j])
  {
    var head := if IsBlank(cover[0]) then [] else [Trim(cover[0])];
    var rest := CoverLines(cover[1..]);
    assert CoverLines(cover) == head + rest;
    if j == 0 {
      assert cover[..0] == [];
    } else {
      CoverLinesAt(cover[1..], j - 1);
      CountNonBlankSkipFirst(cover, j);
      assert CountNonBlank(cover[..j]) == |head| + CountNonBlank(cover[1..][..j - 1]);
    }
  }

  /** Every cover line is the trim of a non-empty cover phrase: nothing is invented. */
  lemma {:induction false} CoverLineSource(cover: seq<string>, i: nat) returns (j: nat)
    requires i < |CoverLines(cover)|
    ensures j < |cover| && !IsBlank(cover[j])
    ensures CountNonBlank(cover[..j]) == i
    ensures CoverLines(cover)[i] == Trim(cover[j])
  {
    var head := if IsBlank(cover[0]) then [] else [Trim(cover[0])];
    var rest := CoverLines(cover[1..]);
    assert CoverLines(cover) == head + rest;
    if i < |head| {
      j := 0;
      assert cover[..0] == [];
    } else {
      var j' := CoverLineSource(cover[1..], i - |head|);
      j := j' + 1;
      CountNonBlankSkipFirst(cover, j);
    }
  }

  /* ---------------- the main section ---------------- */

  /** One numbered line per non-empty main phrase. */
  lemma {:induction false} MainLinesLength(phrases: seq<string>, start: nat)
    ensures |MainLines(phrases, start)| == CountNonBlank(phrases)
  {
    if phrases != [] {
      MainLinesLength(phrases[1..], start + 1);
    }
  }

  /** The lines of a concatenation are the lines of each part, the second part
      numbered from where it sits in the whole list. */
  lemma {:induction false} MainLinesAppend(a: seq<string>, b: seq<string>, start: nat)
    ensures MainLines(a + b, start) == MainLines(a, start) + MainLines(b, start + |a|)
  {
    if a == [] {
      assert a + b == b;
    } else {
      assert (a + b)[1..] == a[1..] + b;
      MainLinesAppend(a[1..], b, start + 1);
    }
  }

  /** The non-empty phrase at position `k` yields the line numbered `start + k + 1`,
      after exactly the lines of the non-empty phrases before it: empty phrases yield
      no line and do not shift the numbers of the later ones. */
  lemma {:induction false} MainLinesAt(phrases: seq<string>, start: nat, k: nat)
    requires k < |phrases| && !IsBlank(phrases[k])
    ensures CountNonBlank(phrases[..k]) < |MainLines(phrases, start)|
    ensures MainLines(phrases, start)[CountNonBlank(phrases[..k])] == NumberedLine(start + k, phrases[k])
  {
    var head := if IsBlank(phrases[0]) then [] else [NumberedLine(start, phrases[0])];
    var rest := MainLines(phrases[1..], start + 1);
    assert MainLines(phrases, start) == head + rest;
    if k == 0 {
      assert phrases[..0] == [];
    } else {
      MainLinesAt(phrases[1..], start + 1, k - 1);
      CountNonBlankSkipFirst(phrases, k);
      assert CountNonBlank(phrases[..k]) == |head| + CountNonBlank(phrases[1..][..k - 1]);
    }
  }

  /** Every main line is the numbered line of a non-empty phrase. */
  lemma {:induction false} MainLineSource(phrases: seq<string>, start: nat, i: nat) returns (k: nat)
    requires i < |MainLines(phrases, start)|
    ensures k < |phrases| && !IsBlank(phrases[k])
    ensures CountNonBlank(phrases[..k]) == i
    ensures MainLines(phrases, start)[i] == NumberedLine(start + k, phrases[k])
  {
    var head := if IsBlank(phrases[0]) then [] else [NumberedLine(start, phrases[0])];
    var rest := MainLines(phrases[1..], start + 1);
    assert MainLines(phrases, start) == head + rest;
    if i < |head| {
      k := 0;
      assert phrases[..0] == [];
    } else {
      var k' := MainLineSource(phrases[1..], start + 1, i - |head|);
      k := k' + 1;
      CountNonBlankSkipFirst(phrases, k);
    }
  }

  /** The lines of two non-empty phrases appear in the order of the phrases. */
  lemma MainLinesOrdered(phrases: seq<string>, k1: nat, k2: nat)
    requires k1 < k2 < |phrases|
    requires !IsBlank(phrases[k1]) && !IsBlank(phrases[k2])
    ensures CountNonBlank(phrases[..k1]) < CountNonBlank(phrases[..k2])
  {
    assert phrases[..k2] == phrases[..k1] + phrases[k1..k2];
    CountNonBlankAppend(phrases[..k1], phrases[k1..k2]);
    assert phrases[k1..k2] == [phrases[k1]] + phrases[k1 + 1..k2];
    CountNonBlankAppend([phrases[k1]], phrases[k1 + 1..k2]);
    assert [phrases[k1]][1..] == [];
  }

  /** A numbered line names its phrase's number: its leading digits read back to
      `index + 1`, followed by ". " and the trimmed phrase. */
  lemma NumberedLineNumber(index: nat, phrase: string)
    ensures var digits := NatToString(index + 1);
      |digits| + 2 <= |NumberedLine(index, phrase)|
      && NumberedLine(index, phrase)[..|digits|] == digits
      && ParseDecimal(digits) == index + 1
      && NumberedLine(index, phrase)[|digits|..|digits| + 2] == ". "
      && NumberedLine(index, phrase)[|digits| + 2..] == Trim(phrase)
  {
    ParseNatToString(index + 1);
  }

  /* ---------------- sections and the whole text ---------------- */

  /** A section as it may be pushed: at least one line, and no empty line. */
  predicate WellFormedSection(lines: seq<string>) {
    |lines| > 0 && forall i | 0 <= i < |lines| :: lines[i] != []
  }

  lemma DateLinesWellFormed(date: string)
    ensures |DateLines(date)| > 0 ==> WellFormedSection(DateLines(date))
  {
  }

  lemma CoverLinesWellFormed(cover: seq<string>)
    ensures |CoverLines(cover)| > 0 ==> WellFormedSection(CoverLines(cover))
  {
    forall i | 0 <= i < |CoverLines(cover)| ensures CoverLines(cover)[i] != [] {
      var j := CoverLineSource(cover, i);
    }
  }

  lemma MainLinesWellFormed(phrases: seq<string>, start: nat)
    ensures |MainLines(phrases, start)| > 0 ==> WellFormedSection(MainLines(phrases, start))
  {
    forall i | 0 <= i < |MainLines(phrases, start)| ensures MainLines(phrases, start)[i] != [] {
      var k := MainLineSource(phrases, start, i);
    }
  }

  /** The pushed sections are, in order, a selection of the date, cover and main
      sections: every one of them is well formed, and there are at most three. */
  lemma SectionsWellFormed(date: string, cover: seq<string>, phrases: seq<string>)
    ensures |Sections(date, cover, phrases)| <= 3
    ensures forall i | 0 <= i < |Sections(date, cover, phrases)| ::
      WellFormedSection(Sections(date, cover, phrases)[i])
  {
    DateLinesWellFormed(date);
    CoverLinesWellFormed(cover);
    MainLinesWellFormed(phrases, 0);
  }

  /** The text is empty exactly when the date, every cover phrase and every main
      phrase trim to the empty string. */
  lemma AssembleEmpty(date: string, cover: seq<string>, phrases: seq<string>)
    ensures Assemble(date, cover, phrases) == [] <==>
      IsBlank(date)
      && (forall j | 0 <= j < |cover| :: IsBlank(cover[j]))
      && (forall k | 0 <= k < |phrases| :: IsBlank(phrases[k]))
  {
    AssembleAsGlue(date, cover, phrases);
    var c, m := CoverLines(cover), MainLines(phrases, 0);
    CoverLinesWellFormed(cover);
    MainLinesWellFormed(phrases, 0);
    JoinWithEmpty(LINE_BREAK, c);
    JoinWithEmpty(LINE_BREAK, m);
    CoverLinesLength(cover);
    MainLinesLength(phrases, 0);
    CountNonBlankZero(cover);
    CountNonBlankZero(phrases);
  }

  /** Copy all reports "nothing to copy", and never calls the clipboard, exactly when
      every field is empty; otherwise it writes the assembled text. */
  lemma CopyOutcomeOfFields(date: string, cover: seq<string>, phrases: seq<string>)
    ensures CopyOutcome(Assemble(date, cover, phrases)) == NothingToCopy <==>
      IsBlank(date)
      && (forall j | 0 <= j < |cover| :: IsBlank(cover[j]))
      && (forall k | 0 <= k < |phrases| :: IsBlank(phrases[k]))
    ensures CopyOutcome(Assemble(date, cover, phrases)) != NothingToCopy ==>
      CopyOutcome(Assemble(date, cover, phrases)) == WriteClipboard(Assemble(date, cover, phrases))
  {
    AssembleEmpty(date, cover, phrases);
  }

  /** Puts a blank line between two texts, leaving out whichever is empty. */
  function Glue(a: string, b: string): string {
    if a == [] then b else if b == [] then a else a + SECTION_BREAK + b
  }

  /** Pushing a section onto well-formed sections glues its text after theirs. */
  lemma SectionTextsPush(sections: seq<seq<string>>, lines: seq<string>)
    ensures SectionTexts(sections + [lines]) == SectionTexts(sections) + [JoinWith(LINE_BREAK, lines)]
  {
  }

  /** The joined texts of well-formed sections are empty only when there are none. */
  lemma JoinSectionTextsNonEmpty(sections: seq<seq<string>>)
    requires |sections| > 0 && forall i | 0 <= i < |sections| :: WellFormedSection(sections[i])
    ensures JoinWith(SECTION_BREAK, SectionTexts(sections)) != []
  {
    var texts := SectionTexts(sections);
    JoinWithEmpty(SECTION_BREAK, texts);
    JoinWithEmpty(LINE_BREAK, sections[0]);
    assert WellFormedSection(sections[0]);
    assert texts[0] == JoinWith(LINE_BREAK, sections[0]);
  }

  lemma PushGlue(sections: seq<seq<string>>, lines: seq<string>)
    requires forall i | 0 <= i < |sections| :: WellFormedSection(sections[i])
    requires |lines| > 0 ==> WellFormedSection(lines)
    ensures JoinWith(SECTION_BREAK, SectionTexts(Push(sections, lines)))
      == Glue(JoinWith(SECTION_BREAK, SectionTexts(sections)), JoinWith(LINE_BREAK, lines))
  {
    var before := SectionTexts(sections);
    var text := JoinWith(LINE_BREAK, lines);
    JoinWithEmpty(LINE_BREAK, lines);
    if |lines| > 0 {
      assert lines[0] != [];
      SectionTextsPush(sections, lines);
      if |sections| > 0 {
        JoinWithAppend(SECTION_BREAK, before, [text]);
        JoinSectionTextsNonEmpty(sections);
      } else {
        assert before + [text] == [text];
      }
    }
  }

  /** The text is the date, the cover lines and the main lines, in that order, each
      group joined with line breaks and the non-empty groups separated by one blank
      line. */
  lemma AssembleAsGlue(date: string, cover: seq<string>, phrases: seq<string>)
    ensures Assemble(date, cover, phrases) ==
      Glue(Glue(Trim(date), JoinWith(LINE_BREAK, CoverLines(cover))),
           JoinWith(LINE_BREAK, MainLines(phrases, 0)))
  {
    DateLinesWellFormed(date);
    CoverLinesWellFormed(cover);
    MainLinesWellFormed(phrases, 0);
    var s0: seq<seq<string>> := [];
    var s1 := Push(s0, DateLines(date));
    var s2 := Push(s1, CoverLines(cover));
    PushGlue(s0, DateLines(date));
    PushGlue(s1, CoverLines(cover));
    PushGlue(s2, MainLines(phrases, 0));
  }

  /** The lines of the text, one section after another with a single empty line
      between consecutive sections. */
  function Layout(sections: seq<seq<string>>): seq<string> {
    if |sections| == 0 then []
    else if |sections| == 1 then sections[0]
    else sections[0] + [""] + Layout(sections[1..])
  }

  lemma {:induction false} LayoutNonEmpty(sections: seq<seq<string>>)
    requires |sections| > 0 && forall i | 0 <= i < |sections| :: |sections[i]| > 0
    ensures |Layout(sections)| > 0
  {
  }

  /** Joining the section texts with a blank line is joining the layout's lines with
      a line break. */
  lemma {:induction false} JoinSectionsAsLines(sections: seq<seq<string>>)
    requires forall i | 0 <= i < |sections| :: |sections[i]| > 0
    ensures JoinWith(SECTION_BREAK, SectionTexts(sections)) == JoinWith(LINE_BREAK, Layout(sections))
  {
    if |sections| > 1 {
      var rest := sections[1..];
      JoinSectionsAsLines(rest);
      assert SectionTexts(sections)[1..] == SectionTexts(rest);
      LayoutNonEmpty(rest);
      var tail := [""] + Layout(rest);
      JoinWithAppend(LINE_BREAK, sections[0], tail);
      JoinWithAppend(LINE_BREAK, [""], Layout(rest));
      assert sections[0] + [""] + Layout(rest) == sections[0] + tail;
    }
  }

  /** No line holds a line break. */
  predicate NoBreaks(lines: seq<string>) {
    forall i | 0 <= i < |lines| :: '\n' !in lines[i]
  }

  lemma {:induction false} LayoutNoBreaks(sections: seq<seq<string>>)
    requires forall i | 0 <= i < |sections| :: NoBreaks(sections[i])
    ensures NoBreaks(Layout(sections))
  {
    if |sections| > 1 {
      LayoutNoBreaks(sections[1..]);
      var rest := Layout(sections[1..]);
      assert Layout(sections) == sections[0] + ([""] + rest);
      assert NoBreaks(sections[0]);
      forall i | 0 <= i < |Layout(sections)| ensures '\n' !in Layout(sections)[i] {
        if i < |sections[0]| {
          assert Layout(sections)[i] == sections[0][i];
        } else if i > |sections[0]| {
          assert Layout(sections)[i] == rest[i - |sections[0]| - 1];
        }
      }
    }
  }

  lemma DateLinesNoBreaks(date: string)
    requires '\n' !in date
    ensures NoBreaks(DateLines(date))
  {
    if '\n' in Trim(date) {
      TrimKeepsCharacters(date, '\n');
    }
  }

  lemma CoverLinesNoBreaks(cover: seq<string>)
    requires forall j | 0 <= j < |cover| :: '\n' !in cover[j]
    ensures NoBreaks(CoverLines(cover))
  {
    forall i | 0 <= i < |CoverLines(cover)| ensures '\n' !in CoverLines(cover)[i] {
      var j := CoverLineSource(cover, i);
      if '\n' in Trim(cover[j]) {
        TrimKeepsCharacters(cover[j], '\n');
      }
    }
  }

  lemma NumberedLineNoBreaks(index: nat, phrase: string)
    requires '\n' !in phrase
    ensures '\n' !in NumberedLine(index, phrase)
  {
    var digits := NatToString(index + 1);
    assert '\n' !in digits;
    if '\n' in Trim(phrase) {
      TrimKeepsCharacters(phrase, '\n');
    }
    assert NumberedLine(index, phrase) == digits + ". " + Trim(phrase);
  }

  lemma MainLinesNoBreaks(phrases: seq<string>, start: nat)
    requires forall k | 0 <= k < |phrases| :: '\n' !in phrases[k]
    ensures NoBreaks(MainLines(phrases, start))
  {
    forall i | 0 <= i < |MainLines(phrases, start)| ensures '\n' !in MainLines(phrases, start)[i] {
      var k := MainLineSource(phrases, start, i);
      NumberedLineNoBreaks(start + k, phrases[k]);
    }
  }

  /** Splitting the text at line breaks recovers every line of every section, with
      exactly one empty line between consecutive sections, provided the fields hold
      no line break of their own (as a single-line text input guarantees) and some
      field is not blank (the all-blank form gives "", which splits into [""]). */
  lemma AssembleLines(date: string, cover: seq<string>, phrases: seq<string>)
    requires '\n' !in date
    requires forall j | 0 <= j < |cover| :: '\n' !in cover[j]
    requires forall k | 0 <= k < |phrases| :: '\n' !in phrases[k]
    requires !(IsBlank(date)
      && (forall j | 0 <= j < |cover| :: IsBlank(cover[j]))
      && (forall k | 0 <= k < |phrases| :: IsBlank(phrases[k])))
    ensures Split(Assemble(date, cover, phrases), '\n') == Layout(Sections(date, cover, phrases))
  {
    var sections := Sections(date, cover, phrases);
    AssembleEmpty(date, cover, phrases);
    assert |sections| > 0;
    SectionsWellFormed(date, cover, phrases);
    DateLinesNoBreaks(date);
    CoverLinesNoBreaks(cover);
    MainLinesNoBreaks(phrases, 0);
    assert forall i | 0 <= i < |sections| :: NoBreaks(sections[i]);
    JoinSectionsAsLines(sections);
    LayoutNonEmpty(sections);
    LayoutNoBreaks(sections);
    SplitJoin(Layout(sections), '\n');
  }
}
