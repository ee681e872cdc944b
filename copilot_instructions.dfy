/**
 * The TaskSync block in `.github/copilot-instructions.md`: a span that
 * starts with the START marker and ends with the END marker. Injection
 * updates the block in place, or appends it (creating the file if needed)
 * once the user allows it; removal cuts it out and tidies the blank lines
 * around the cut. File reads become an optional content (None when the file
 * cannot be read) and writes become a returned decision.
 *
 * The markers and the header of a created file are gathered in a `Layout`;
 * the extension's own is `TaskSyncLayout.TaskSync`. The properties are
 * proved for every layout whose markers are single-line and start and end
 * visibly.
 */
module CopilotInstructions {

  import opened Wrappers
  import opened JsString

  /** The two markers around the block and the first line of a file the extension creates. */
  datatype Layout = Layout(start: string, end: string, header: string) {

    /**
     * What the proofs need: markers and header are non-empty, the markers
     * hold no line break and start and end with visible characters, and
     * the header starts and ends visibly and lacks the first character of
     * START.
     */
    predicate Valid() {
      && |start| > 0 && |end| > 0 && |header| > 0
      && '\n' !in start && '\n' !in end
      && !IsWhitespace(start[0]) && !IsWhitespace(end[0]) && !IsWhitespace(end[|end| - 1])
      && !IsWhitespace(header[0]) && !IsWhitespace(header[|header| - 1])
      && start[0] !in header
    }
  }

  /** The block as it is written: the markers on their own lines around the text. */
  function NewSection(m: Layout, text: string): string {
    m.start + "\n" + text + "\n" + m.end
  }

  /** What is appended to an existing file: a blank line, then the block. */
  function SectionContent(m: Layout, text: string): string {
    "\n\n" + NewSection(m, text)
  }

  /** The file a fresh injection creates. */
  function CreatedFile(m: Layout, text: string): string {
    m.header + "\n" + SectionContent(m, text)
  }

  /** What an edit decides to do with the file (or, when the user declines, with the setting). */
  datatype FileDecision =
    | NoChange
    | Write(content: string)
    | Delete
    | ResetToOff  // the user declined; `instructionInjection` is set back to `off`

  /** The block occupies `content[start..end]`, both markers included. */
  datatype Span = Span(start: nat, end: nat)

  // ---------------------------------------------------------------------
  // Finding the block
  // ---------------------------------------------------------------------

  /**
   * The block of `content`: the first START marker, up to the end of the
   * first END marker that follows it. None when either is missing.
   */
  function LocateSection(m: Layout, content: string): (sp: Option<Span>)
    ensures sp.Some? ==> sp.value.start + |m.start| + |m.end| <= sp.value.end <= |content|
  {
    var s := IndexOf(content, m.start);
    if s == -1 then None
    else
      var e := IndexOfFrom(content, m.end, s + |m.start|);
      if e == -1 then None else Some(Span(s, e + |m.end|))
  }

  /**
   * The block found is the first START marker and the first END marker
   * after it; none is found exactly when there is no START, or no END
   * after the first START.
   */
  lemma LocateSectionFindsFirst(m: Layout, content: string)
    ensures var sp := LocateSection(m, content);
            && (sp.Some? ==>
                  && OccursAt(content, m.start, sp.value.start)
                  && OccursAt(content, m.end, sp.value.end - |m.end|)
                  && (forall j :: 0 <= j < sp.value.start ==> !OccursAt(content, m.start, j))
                  && (forall j :: sp.value.start + |m.start| <= j < sp.value.end - |m.end| ==>
                                    !OccursAt(content, m.end, j)))
            && (sp.None? <==>
                  || !Contains(content, m.start)
                  || forall j :: IndexOf(content, m.start) + |m.start| <= j ==> !OccursAt(content, m.end, j))
  {
    if LocateSection(m, content).Some? {
      LocatedSectionIsFirst(m, content);
    }
    LocateSectionNoneIff(m, content);
  }

  /** A block found starts at the first START and ends at the first END after it. */
  lemma LocatedSectionIsFirst(m: Layout, content: string)
    requires LocateSection(m, content).Some?
    ensures var sp := LocateSection(m, content).value;
            && OccursAt(content, m.start, sp.start)
            && OccursAt(content, m.end, sp.end - |m.end|)
            && (forall j :: 0 <= j < sp.start ==> !OccursAt(content, m.start, j))
            && (forall j :: sp.start + |m.start| <= j < sp.end - |m.end| ==> !OccursAt(content, m.end, j))
  {
    var s := IndexOf(content, m.start);
    var e := IndexOfFrom(content, m.end, s + |m.start|);
    assert LocateSection(m, content).value == Span(s, e + |m.end|);
    LocatedStartIsFirstStart(content, m.start, s);
    LocatedEndIsFirstEnd(content, m.end, s + |m.start|, e);
  }

  /** The START of a block found is the first START. */
  lemma LocatedStartIsFirstStart(content: string, start: string, s: int)
    requires s == IndexOf(content, start) && s != -1
    ensures OccursAt(content, start, s)
    ensures forall j :: 0 <= j < s ==> !OccursAt(content, start, j)
  {
    IndexOfFinds(content, start);
  }

  /** The END of a block found is the first END after its START. */
  lemma LocatedEndIsFirstEnd(content: string, end: string, from: nat, e: int)
    requires e == IndexOfFrom(content, end, from) && e != -1
    ensures OccursAt(content, end, e)
    ensures forall j :: from <= j < e ==> !OccursAt(content, end, j)
  {
    IndexOfFromFinds(content, end, from);
  }


  /** No block is found exactly when there is no START, or no END after the first START. */
  lemma LocateSectionNoneIff(m: Layout, content: string)
    ensures LocateSection(m, content).None? <==>
              || !Contains(content, m.start)
              || forall j :: IndexOf(content, m.start) + |m.start| <= j ==> !OccursAt(content, m.end, j)
  {
    var s := IndexOf(content, m.start);
    IndexOfFinds(content, m.start);
    if s != -1 {
      var e := IndexOfFrom(content, m.end, s + |m.start|);
      assert LocateSection(m, content).None? <==> e == -1;
      IndexOfFromFinds(content, m.end, s + |m.start|);
    }
  }


  /** Cutting a text just after its first START marker keeps that marker first. */
  lemma FirstStartInPrefix(m: Layout, c: string, i: nat)
    requires IndexOf(c, m.start) == i
    ensures IndexOf(c[..i] + m.start, m.start) == i
  {
    IndexOfFinds(c, m.start);
    var n := i + |m.start|;
    var x := c[..i] + m.start;
    assert x == c[..n];
    forall j | 0 <= j <= i
      ensures OccursAt(x, m.start, j) <==> OccursAt(c, m.start, j)
    {
      OccursAtCommonPrefix(x, c, m.start, j, n);
    }
    IndexOfFromIs(x, m.start, 0, i);
  }

  /** After a text without START and a blank line, the START marker is the first one. */
  lemma StartAfterBlankLine(m: Layout, c: string)
    requires m.Valid()
    requires !Contains(c, m.start)
    ensures IndexOf(c + "\n\n" + m.start, m.start) == |c| + 2
  {
    assert OccursAt(m.start, m.start, 0);
    IndexOfFromIs(m.start, m.start, 0, 0);
    assert "" + "\n" + m.start == "\n" + m.start;
    IndexOfPastLineBreak("", m.start, m.start, 0);
    assert c + "\n\n" + m.start == c + "\n" + ("\n" + m.start);
    IndexOfPastLineBreak(c, "\n" + m.start, m.start, 0);
  }

  /** The START marker written after such a prefix is still the first one, whatever follows. */
  lemma StartStaysFirst(m: Layout, p: string, rest: string)
    requires IndexOf(p + m.start, m.start) == |p|
    ensures IndexOf(p + m.start + rest, m.start) == |p|
  {
    IndexOfFinds(p + m.start, m.start);
    var x := p + m.start + rest;
    var n := |p| + |m.start|;
    assert x[..n] == p + m.start;
    forall j | 0 <= j <= |p|
      ensures OccursAt(x, m.start, j) <==> OccursAt(p + m.start, m.start, j)
    {
      OccursAtCommonPrefix(x, p + m.start, m.start, j, n);
    }
    IndexOfFromIs(x, m.start, 0, |p|);
  }

  /** Past a line break, a text without END holds no END marker. */
  lemma NoEndInText(q: string, text: string, end: string, j: int)
    requires |end| > 0 && end[0] != '\n' && !Contains(text, end)
    requires |q| <= j
    ensures !OccursAt(q + "\n" + text, end, j)
  {
    var a := q + "\n" + text;
    if j + |end| <= |a| {
      if j == |q| {
        assert a[j..j + |end|][0] == a[j] == '\n';
      } else {
        assert a == (q + "\n") + text;
        OccursAtShift(q + "\n", text, end, j - |q| - 1);
      }
    }
  }

  /** Searching after START, the first END is the one that closes the written block. */
  lemma EndClosesWrittenBlock(q: string, text: string, end: string, s: string)
    requires |end| > 0 && '\n' !in end && !Contains(text, end)
    ensures IndexOfFrom(q + "\n" + text + "\n" + end + s, end, |q|) == |q| + |text| + 2
  {
    var a := q + "\n" + text;
    var b := end + s;
    forall j | |q| <= j
      ensures !OccursAt(a, end, j)
    {
      NoEndInText(q, text, end, j);
    }
    IndexOfPastLineBreak(a, b, end, |q|);
    assert OccursAt(b, end, 0);
    IndexOfFromIs(b, end, 0, 0);
    assert a + "\n" + b == q + "\n" + text + "\n" + end + s;
  }

  /** The block located from where the two searches land. */
  lemma LocateSectionAt(m: Layout, content: string, i: nat, e: nat, j: nat)
    requires IndexOf(content, m.start) == i
    requires IndexOfFrom(content, m.end, i + |m.start|) == e
    requires j == e + |m.end|
    ensures LocateSection(m, content) == Some(Span(i, j))
  {
  }

  /** The length of a written block. */
  lemma NewSectionLength(m: Layout, text: string)
    ensures |NewSection(m, text)| == |m.start| + |text| + 2 + |m.end|
  {
  }

  /** A START marker first found at the end of `p + START` is still found there once the block is written. */
  lemma WrittenStartFound(m: Layout, p: string, text: string, s: string)
    requires IndexOf(p + m.start, m.start) == |p|
    ensures IndexOf(p + NewSection(m, text) + s, m.start) == |p|
  {
    assert p + NewSection(m, text) + s == p + m.start + ("\n" + text + "\n" + m.end + s);
    StartStaysFirst(m, p, "\n" + text + "\n" + m.end + s);
  }

  /** Searching a written block past its START marker finds its own END marker. */
  lemma WrittenEndFound(m: Layout, p: string, text: string, s: string)
    requires |m.end| > 0 && '\n' !in m.end && !Contains(text, m.end)
    ensures IndexOfFrom(p + NewSection(m, text) + s, m.end, |p| + |m.start|) == |p| + |m.start| + |text| + 2
  {
    assert p + NewSection(m, text) + s == (p + m.start) + "\n" + text + "\n" + m.end + s;
    EndClosesWrittenBlock(p + m.start, text, m.end, s);
  }

  /**
   * A block written after a prefix whose first START is the block's own is
   * found exactly where it was written, whatever follows it, as long as the
   * text holds no END marker.
   */
  lemma LocateWrittenSection(m: Layout, p: string, text: string, s: string)
    requires |m.end| > 0 && '\n' !in m.end
    requires IndexOf(p + m.start, m.start) == |p|
    requires !Contains(text, m.end)
    ensures LocateSection(m, p + NewSection(m, text) + s) == Some(Span(|p|, |p| + |NewSection(m, text)|))
  {
    WrittenStartFound(m, p, text, s);
    WrittenEndFound(m, p, text, s);
    NewSectionLength(m, text);
    LocateSectionAt(m, p + NewSection(m, text) + s, |p|, |p| + |m.start| + |text| + 2, |p| + |NewSection(m, text)|);
  }

  // ---------------------------------------------------------------------
  // Injection
  // ---------------------------------------------------------------------

  /**
   * The update branch of the injection, once START is known to be present:
   * replace the block by the new one unless it already reads the same; a
   * START with no END after it is left alone.
   */
  function UpdateSection(m: Layout, c: string, text: string): (d: FileDecision)
    ensures d.NoChange? || d.Write?
    ensures d.Write? ==> LocateSection(m, c).Some?
                         && c[LocateSection(m, c).value.start..LocateSection(m, c).value.end] != NewSection(m, text)
  {
    match LocateSection(m, c)
    case None => NoChange
    case Some(sp) =>
      if c[sp.start..sp.end] == NewSection(m, text) then NoChange
      else Write(c[..sp.start] + NewSection(m, text) + c[sp.end..])
  }

  /**
   * `injectIntoCopilotInstructionsMd`. `file` is the file's content, None
   * when it cannot be read; `allow` is the user's answer, consulted only
   * when the file has to be created or appended to.
   */
  function Inject(m: Layout, file: Option<string>, text: string, allow: bool): (d: FileDecision)
    ensures Trim(text) == "" ==> d == NoChange
    ensures !d.Delete?
    ensures d.ResetToOff? ==> !allow && (file.None? || !Contains(file.value, m.start))
    ensures file.Some? && Contains(file.value, m.start) ==> d.NoChange? || d.Write?
    ensures d.Write? && file.Some? && !Contains(file.value, m.start) ==> StartsWith(d.content, file.value)
    ensures d.Write? && file.None? ==> StartsWith(d.content, m.header + "\n")
    // The file is created or appended to only with the user's consent, and a decline resets the method.
    ensures d.Write? && (file.None? || !Contains(file.value, m.start)) ==> allow
    ensures Trim(text) != "" && !allow && (file.None? || !Contains(file.value, m.start)) ==> d == ResetToOff
    ensures Trim(text) != "" && allow && file.Some? && !Contains(file.value, m.start)
            ==> d == Write(file.value + SectionContent(m, text))
    ensures Trim(text) != "" && allow && file.None? ==> d == Write(CreatedFile(m, text))
    // With START present but no whole block, nothing is written.
    ensures file.Some? && Contains(file.value, m.start) && LocateSection(m, file.value).None? ==> d == NoChange
  {
    if Trim(text) == "" then NoChange
    else match file
      case Some(c) =>
        if Contains(c, m.start) then UpdateSection(m, c, text)
        else if !allow then ResetToOff
        else Write(c + SectionContent(m, text))
      case None =>
        if !allow then ResetToOff
        else Write(CreatedFile(m, text))
  }

  /**
   * When the block is already there, injection never prompts: the answer
   * is not consulted and the setting is never reset.
   */
  lemma SectionPresentNeverPrompts(m: Layout, c: string, text: string)
    requires Contains(c, m.start)
    ensures Inject(m, Some(c), text, true) == Inject(m, Some(c), text, false)
    ensures !Inject(m, Some(c), text, false).ResetToOff?
  {
  }

  /** Every file injection writes holds the START marker, so a later injection never prompts. */
  lemma WrittenHoldsStart(m: Layout, file: Option<string>, text: string, allow: bool)
    requires Inject(m, file, text, allow).Write?
    ensures Contains(Inject(m, file, text, allow).content, m.start)
  {
    match file
    case Some(c) =>
      if Contains(c, m.start) {
        var sp := LocateSection(m, c).value;
        SectionStartOccurs(m, c[..sp.start], text, c[sp.end..]);
      } else {
        SectionStartOccurs(m, c + "\n\n", text, "");
        assert c + SectionContent(m, text) == c + "\n\n" + NewSection(m, text) + "";
      }
    case None =>
      SectionStartOccurs(m, m.header + "\n\n\n", text, "");
      assert CreatedFile(m, text) == m.header + "\n\n\n" + NewSection(m, text) + "";
  }

  /** A block put between two texts begins with START right after the first text. */
  lemma SectionStartOccurs(m: Layout, p: string, text: string, q: string)
    ensures OccursAt(p + NewSection(m, text) + q, m.start, |p|)
  {
    var w := p + NewSection(m, text) + q;
    assert w[|p|..|p| + |m.start|] == m.start;
  }

  /**
   * Updating the block rewrites exactly the block: the text before and
   * after it is kept, the new block is found where the old one began, and
   * nothing is written when the block already reads the same.
   */
  lemma UpdateReplacesOnlySection(m: Layout, c: string, text: string)
    requires m.Valid() && !Contains(text, m.end)
    requires LocateSection(m, c).Some?
    ensures var sp := LocateSection(m, c).value;
            var d := UpdateSection(m, c, text);
            && (d.NoChange? <==> c[sp.start..sp.end] == NewSection(m, text))
            && (d.Write? ==>
                  && StartsWith(d.content, c[..sp.start])
                  && EndsWith(d.content, c[sp.end..])
                  && LocateSection(m, d.content) == Some(Span(sp.start, sp.start + |NewSection(m, text)|))
                  && d.content[sp.start..sp.start + |NewSection(m, text)|] == NewSection(m, text))
  {
    var sp := LocateSection(m, c).value;
    UpdateSectionAt(m, c, text, sp.start, sp.end);
    if c[sp.start..sp.end] != NewSection(m, text) {
      UpdateWritesInPlace(m, c, text, sp.start, sp.end);
    }
  }

  /** The file an update writes keeps what surrounds the old block and holds the new block in its place. */
  lemma UpdateWritesInPlace(m: Layout, c: string, text: string, i: nat, j: nat)
    requires m.Valid() && !Contains(text, m.end)
    requires LocateSection(m, c) == Some(Span(i, j))
    requires c[i..j] != NewSection(m, text)
    ensures var d, n := UpdateSection(m, c, text), NewSection(m, text);
            && d == Write(c[..i] + n + c[j..])
            && StartsWith(d.content, c[..i]) && EndsWith(d.content, c[j..])
            && LocateSection(m, d.content) == Some(Span(i, i + |n|))
            && d.content[i..i + |n|] == n
  {
    UpdateSectionAt(m, c, text, i, j);
    BlockReplacedInPlace(m, c, text, i, j);
    SplicedParts(c[..i], NewSection(m, text), c[j..]);
  }

  /** Splicing a new block in place of the one found at `i..j` leaves it as the block found. */
  lemma BlockReplacedInPlace(m: Layout, c: string, text: string, i: nat, j: nat)
    requires m.Valid() && !Contains(text, m.end)
    requires LocateSection(m, c) == Some(Span(i, j))
    ensures i <= j <= |c|
    ensures LocateSection(m, c[..i] + NewSection(m, text) + c[j..]) == Some(Span(i, i + |NewSection(m, text)|))
  {
    LocatedStartIsFirst(m, c);
    FirstStartInPrefix(m, c, i);
    LocateWrittenSection(m, c[..i], text, c[j..]);
  }

  /** The block found starts where `indexOf` finds START. */
  lemma LocatedStartIsFirst(m: Layout, c: string)
    requires LocateSection(m, c).Some?
    ensures IndexOf(c, m.start) == LocateSection(m, c).value.start
  {
  }



  /** What the update branch decides once the block is known to occupy `c[i..j]`. */
  lemma UpdateSectionAt(m: Layout, c: string, text: string, i: nat, j: nat)
    requires LocateSection(m, c) == Some(Span(i, j))
    ensures i <= j <= |c|
    ensures UpdateSection(m, c, text)
            == if c[i..j] == NewSection(m, text) then NoChange else Write(c[..i] + NewSection(m, text) + c[j..])
  {
  }

  /** A text spliced between `p` and `q` keeps them at its two ends and sits between them. */
  lemma SplicedParts(p: string, t: string, q: string)
    ensures StartsWith(p + t + q, p) && EndsWith(p + t + q, q)
    ensures (p + t + q)[|p|..|p| + |t|] == t
  {
    assert (p + t + q)[..|p|] == p;
    assert (p + t + q)[|p + t + q| - |q|..] == q;
  }

  /** Where the block lands in what injection writes when START is absent. */
  lemma AppendedSectionLocated(m: Layout, c: string, text: string)
    requires m.Valid() && !Contains(c, m.start) && !Contains(text, m.end)
    ensures LocateSection(m, c + SectionContent(m, text))
            == Some(Span(|c| + 2, |c| + 2 + |NewSection(m, text)|))
  {
    StartAfterBlankLine(m, c);
    assert c + SectionContent(m, text) == (c + "\n\n") + NewSection(m, text) + "";
    LocateWrittenSection(m, c + "\n\n", text, "");
  }

  /** A run that writes nothing would write nothing whatever the user answered. */
  lemma NoChangeWhateverAnswer(m: Layout, file: Option<string>, text: string, allow: bool, allowAgain: bool)
    requires Inject(m, file, text, allow) == NoChange
    ensures Inject(m, file, text, allowAgain) == NoChange
  {
  }

  /** When the user declines, the file holds no block for removal to find. */
  lemma DeclinedLeavesNothingToRemove(m: Layout, file: Option<string>, text: string, allow: bool)
    requires Inject(m, file, text, allow).ResetToOff?
    ensures RemoveDecision(m, file) == NoChange
  {
    if file.Some? {
      IndexOfFinds(file.value, m.start);
    }
  }

  /** The header line of a created file holds no START marker. */
  lemma HeaderLineLacksStart(m: Layout)
    requires m.Valid()
    ensures !Contains(m.header + "\n", m.start)
  {
    MissingCharNotContained(m.header + "\n", m.start, 0);
  }

  /** A file whose block already reads as the new one is left alone, whatever the user would answer. */
  lemma SettledSectionKept(m: Layout, x: string, text: string, i: nat, allow: bool)
    requires LocateSection(m, x) == Some(Span(i, i + |NewSection(m, text)|))
    requires x[i..i + |NewSection(m, text)|] == NewSection(m, text)
    ensures Inject(m, Some(x), text, allow) == NoChange
  {
    IndexOfFinds(x, m.start);
    UpdateSectionAt(m, x, text, i, i + |NewSection(m, text)|);
  }

  /** Appending to `c`, which holds no START: the block is found right after the blank line. */
  lemma AppendedSectionSettled(m: Layout, c: string, text: string)
    requires m.Valid() && !Contains(c, m.start) && !Contains(text, m.end)
    ensures var x := c + SectionContent(m, text);
            && LocateSection(m, x) == Some(Span(|c| + 2, |c| + 2 + |NewSection(m, text)|))
            && x[|c| + 2..|c| + 2 + |NewSection(m, text)|] == NewSection(m, text)
  {
    AppendedSectionLocated(m, c, text);
    assert c + SectionContent(m, text) == (c + "\n\n") + NewSection(m, text) + "";
    SplicedParts(c + "\n\n", NewSection(m, text), "");
  }

  /** An updated block stays as it is when injected again. */
  lemma UpdatedSectionSettled(m: Layout, c: string, text: string, allowAgain: bool)
    requires m.Valid() && !Contains(text, m.end)
    requires LocateSection(m, c).Some? && UpdateSection(m, c, text).Write?
    ensures Inject(m, Some(UpdateSection(m, c, text).content), text, allowAgain) == NoChange
  {
    UpdateReplacesOnlySection(m, c, text);
    SettledSectionKept(m, UpdateSection(m, c, text).content, text, LocateSection(m, c).value.start, allowAgain);
  }

  /** An appended block stays as it is when injected again. */
  lemma AppendedSectionKept(m: Layout, c: string, text: string, allowAgain: bool)
    requires m.Valid() && !Contains(c, m.start) && !Contains(text, m.end)
    ensures Inject(m, Some(c + SectionContent(m, text)), text, allowAgain) == NoChange
  {
    AppendedSectionSettled(m, c, text);
    SettledSectionKept(m, c + SectionContent(m, text), text, |c| + 2, allowAgain);
  }

  /** A created file stays as it is when injected again. */
  lemma CreatedFileKept(m: Layout, text: string, allowAgain: bool)
    requires m.Valid() && !Contains(text, m.end)
    ensures Inject(m, Some(CreatedFile(m, text)), text, allowAgain) == NoChange
  {
    HeaderLineLacksStart(m);
    assert CreatedFile(m, text) == (m.header + "\n") + SectionContent(m, text);
    AppendedSectionKept(m, m.header + "\n", text, allowAgain);
  }

  /**
   * Injection is idempotent: whatever it writes (update, append or create),
   * running it again with the same text writes nothing, whatever the
   * user would answer.
   */
  lemma InjectIdempotent(m: Layout, file: Option<string>, text: string, allow: bool, allowAgain: bool)
    requires m.Valid() && !Contains(text, m.end)
    requires Inject(m, file, text, allow).Write?
    ensures Inject(m, Some(Inject(m, file, text, allow).content), text, allowAgain) == NoChange
  {
    match file
    case Some(c) =>
      if Contains(c, m.start) {
        IndexOfFinds(c, m.start);
        assert LocateSection(m, c).Some? by {
          assert Inject(m, file, text, allow) == UpdateSection(m, c, text);
        }
        UpdatedSectionSettled(m, c, text, allowAgain);
      } else {
        AppendedSectionKept(m, c, text, allowAgain);
      }
    case None =>
      CreatedFileKept(m, text, allowAgain);
  }

  // ---------------------------------------------------------------------
  // Removal
  // ---------------------------------------------------------------------

  /**
   * `while (before.endsWith('\n\n')) before = before.slice(0, -1)`: a
   * prefix of `s` that does not end with a blank line
   * (`CollapseTrailingDrops` proves that only line breaks were dropped).
   */
  function CollapseTrailingNewlines(s: string): (r: string)
    ensures |r| <= |s|
    ensures !EndsWith(r, "\n\n")
    decreases |s|
  {
    if EndsWith(s, "\n\n") then CollapseTrailingNewlines(s[..|s| - 1]) else s
  }

  /** `CollapseTrailingNewlines` keeps a prefix of `s` and drops only line breaks after it. */
  lemma {:induction false} CollapseTrailingDrops(s: string)
    ensures CollapseTrailingNewlines(s) == s[..|CollapseTrailingNewlines(s)|]
    ensures forall i :: |CollapseTrailingNewlines(s)| <= i < |s| ==> s[i] == '\n'
    decreases |s|
  {
    if EndsWith(s, "\n\n") {
      var r := CollapseTrailingNewlines(s[..|s| - 1]);
      CollapseTrailingDrops(s[..|s| - 1]);
      assert s[..|s| - 1][..|r|] == s[..|r|];
      assert s[|s| - 1] == s[|s| - 2..][1];
    } else {
      assert s[..|s|] == s;
    }
  }

  /**
   * `while (after.startsWith('\n\n')) after = after.substring(1)`: a
   * suffix of `s` that does not start with a blank line
   * (`CollapseLeadingDrops` proves that only line breaks were dropped).
   */
  function CollapseLeadingNewlines(s: string): (r: string)
    ensures |r| <= |s|
    ensures !StartsWith(r, "\n\n")
    decreases |s|
  {
    if StartsWith(s, "\n\n") then CollapseLeadingNewlines(s[1..]) else s
  }

  /** `CollapseLeadingNewlines` keeps a suffix of `s` and drops only line breaks in front of it. */
  lemma {:induction false} CollapseLeadingDrops(s: string)
    ensures CollapseLeadingNewlines(s) == s[|s| - |CollapseLeadingNewlines(s)|..]
    ensures forall i :: 0 <= i < |s| - |CollapseLeadingNewlines(s)| ==> s[i] == '\n'
    decreases |s|
  {
    if StartsWith(s, "\n\n") {
      var r := CollapseLeadingNewlines(s[1..]);
      CollapseLeadingDrops(s[1..]);
      assert s[1..][|s| - 1 - |r|..] == s[|s| - |r|..];
      assert s[0] == s[..2][0];
    } else {
      assert s[0..] == s;
    }
  }

  /**
   * What removing the block does with the trimmed rest `u` of the file: it
   * is deleted when nothing or only the header would be left, and
   * otherwise rewritten with one final line break.
   */
  function Remainder(m: Layout, u: string): (d: FileDecision)
    ensures d.Delete? <==> u == "" || u == m.header
    ensures d.Write? ==> |d.content| == |u| + 1 && d.content[..|u|] == u && d.content[|u|] == '\n'
    ensures !d.Delete? ==> d.Write?
  {
    if |u| == 0 || u == m.header then Delete else Write(u + "\n")
  }

  /**
   * The cut itself: blank lines on either side of it collapse to single
   * line breaks, the rest is trimmed, and `Remainder` decides.
   */
  function Cut(m: Layout, before: string, after: string): (d: FileDecision)
    ensures d.Write? || d.Delete?
  {
    Remainder(m, Trim(CollapseTrailingNewlines(before) + CollapseLeadingNewlines(after)))
  }

  /**
   * `removeFromCopilotInstructionsMd`, as a specification: without a
   * readable file or a whole block nothing changes; otherwise the block is
   * cut out, blank lines at the cut are collapsed and the rest is trimmed.
   */
  function RemoveDecision(m: Layout, file: Option<string>): (d: FileDecision)
    ensures d.NoChange? <==> file.None? || LocateSection(m, file.value).None?
    ensures !d.ResetToOff?
  {
    match file
    case None => NoChange
    case Some(c) =>
      match LocateSection(m, c)
      case None => NoChange
      case Some(sp) => Cut(m, c[..sp.start], c[sp.end..])
  }

  /** `removeFromCopilotInstructionsMd`, with its two clean-up loops. */
  method RemoveFromInstructionsFile(m: Layout, file: Option<string>) returns (d: FileDecision)
    ensures d == RemoveDecision(m, file)
  {
    if file.None? {
      return NoChange;
    }
    var content := file.value;
    IndexOfFinds(content, m.start);
    if !Contains(content, m.start) {
      return NoChange;
    }
    var located := LocateSection(m, content);
    if located.None? {
      return NoChange;
    }
    var before := content[..located.value.start];
    var after := content[located.value.end..];
    while EndsWith(before, "\n\n")
      invariant CollapseTrailingNewlines(before) == CollapseTrailingNewlines(content[..located.value.start])
      decreases |before|
    {
      before := before[..|before| - 1];
    }
    while StartsWith(after, "\n\n")
      invariant CollapseLeadingNewlines(after) == CollapseLeadingNewlines(content[located.value.end..])
      decreases |after|
    {
      after := after[1..];
    }
    var updated := Trim(before + after);
    if |updated| == 0 || updated == m.header {
      d := Delete;
    } else {
      d := Write(updated + "\n");
    }
  }

  /** Collapsing trailing line breaks does not change what `trim` leaves. */
  lemma TrimCollapsedTrailing(s: string)
    ensures Trim(CollapseTrailingNewlines(s)) == Trim(s)
  {
    var r := CollapseTrailingNewlines(s);
    CollapseTrailingDrops(s);
    var w := s[|r|..];
    assert s == r + w;
    assert AllWhitespace(w) by {
      forall i | 0 <= i < |w| ensures IsWhitespace(w[i]) { assert w[i] == s[|r| + i]; }
    }
    TrimAppendWhitespace(r, w);
  }

  /** What removal decides once the block is known to occupy `c[i..j]`. */
  lemma RemoveDecisionAt(m: Layout, c: string, i: nat, j: nat)
    requires LocateSection(m, c) == Some(Span(i, j))
    ensures i <= j <= |c|
    ensures RemoveDecision(m, Some(c)) == Cut(m, c[..i], c[j..])
  {
  }

  /** The blank line in front of an appended block leaves nothing behind once the rest is trimmed. */
  lemma {:induction false} TrimAfterBlankLine(c: string)
    ensures Trim(CollapseTrailingNewlines(c + "\n\n") + CollapseLeadingNewlines("")) == Trim(c)
  {
    assert AllWhitespace("\n\n");
    TrimAfterWhitespaceTail(c, "\n\n");
  }

  /** Collapsing and trimming what precedes a removed block drops any whitespace after `c`. */
  lemma TrimAfterWhitespaceTail(c: string, w: string)
    requires AllWhitespace(w)
    ensures Trim(CollapseTrailingNewlines(c + w) + CollapseLeadingNewlines("")) == Trim(c)
  {
    assert CollapseLeadingNewlines("") == "";
    assert CollapseTrailingNewlines(c + w) + "" == CollapseTrailingNewlines(c + w);
    TrimCollapsedTrailing(c + w);
    TrimAppendWhitespace(c, w);
  }

  /** The text around a block appended to `c`: `c` and the blank line before it, nothing after it. */
  lemma AppendedSurroundings(m: Layout, c: string, text: string)
    ensures var x := c + SectionContent(m, text);
            && x[..|c| + 2] == c + "\n\n"
            && x[|c| + 2 + |NewSection(m, text)|..] == ""
  {
  }

  /**
   * Removal undoes an append: removing the block from a file it was
   * appended to leaves the original content trimmed, with one final line
   * break, or deletes the file if that content was empty or only the header.
   */
  lemma RemoveUndoesAppend(m: Layout, c: string, text: string)
    requires m.Valid() && !Contains(c, m.start) && !Contains(text, m.end)
    ensures RemoveDecision(m, Some(c + SectionContent(m, text))) == Remainder(m, Trim(c))
  {
    AppendedSectionLocated(m, c, text);
    RemoveDecisionAt(m, c + SectionContent(m, text), |c| + 2, |c| + 2 + |NewSection(m, text)|);
    AppendedSurroundings(m, c, text);
    TrimAfterBlankLine(c);
  }

  /** Removal undoes a creation: a file created by injection is deleted again. */
  lemma RemoveUndoesCreate(m: Layout, text: string)
    requires m.Valid() && !Contains(text, m.end)
    ensures RemoveDecision(m, Some(CreatedFile(m, text))) == Delete
  {
    var c := m.header + "\n";
    HeaderLineLacksStart(m);
    assert CreatedFile(m, text) == c + SectionContent(m, text);
    RemoveUndoesAppend(m, c, text);
    assert Trim(c) == m.header by {
      assert AllWhitespace("\n");
      TrimAppendWhitespace(m.header, "\n");
      TrimVisibleEdges(m.header);
    }
  }

  // ---------------------------------------------------------------------
  // As written: the END marker is searched from the start of the file
  // ---------------------------------------------------------------------

  /**
   * The update branch exactly as the extension writes it: START and END
   * are both searched from the start of the file, and `substring` swaps
   * its bounds when END comes first.
   */
  function UpdateSectionAsWritten(m: Layout, c: string, text: string): (d: FileDecision)
    ensures d.NoChange? || d.Write?
    ensures d.Write? ==> IndexOf(c, m.start) != -1 && IndexOf(c, m.end) != -1
  {
    var startIdx := IndexOf(c, m.start);
    var endIdx := IndexOf(c, m.end);
    if startIdx == -1 || endIdx == -1 then NoChange
    else
      var current := Substring(c, startIdx, endIdx + |m.end|);
      if current == NewSection(m, text) then NoChange
      else Write(Substring(c, 0, startIdx) + NewSection(m, text) + SubstringFrom(c, endIdx + |m.end|))
  }

  /** The removal exactly as the extension writes it, END searched from the start of the file. */
  function RemoveSectionAsWritten(m: Layout, c: string): (d: FileDecision)
    ensures !d.ResetToOff?
    ensures d.NoChange? <==> IndexOf(c, m.start) == -1 || IndexOf(c, m.end) == -1
  {
    RemoveBetween(m, c, IndexOf(c, m.start), IndexOf(c, m.end))
  }

  /** The as-written removal once the two searches have returned `startIdx` and `endIdx`. */
  function RemoveBetween(m: Layout, c: string, startIdx: int, endIdx: int): FileDecision {
    if startIdx == -1 || endIdx == -1 then NoChange
    else Cut(m, Substring(c, 0, startIdx), SubstringFrom(c, endIdx + |m.end|))
  }

  /** A file that opens with an END marker and then START: where each marker is found first. */
  predicate EndFoundBeforeStart(m: Layout, rest: string) {
    && IndexOf(m.end + m.start + rest, m.start) == |m.end|
    && IndexOf(m.end + m.start + rest, m.end) == 0
  }

  /** One as-written update of a file that opens with END then START: a new block goes in front. */
  lemma UpdateAsWrittenOutOfOrder(m: Layout, rest: string, text: string)
    requires EndFoundBeforeStart(m, rest)
    ensures UpdateSectionAsWritten(m, m.end + m.start + rest, text)
            == Write(m.end + NewSection(m, text) + m.start + rest)
  {
    var x := m.end + m.start + rest;
    assert x[..|m.end|] == m.end && x[|m.end|..] == m.start + rest;
    assert |NewSection(m, text)| > 0;
  }

  /** The corrected update of a block that follows a stray END marker. */
  lemma UpdateOutOfOrder(m: Layout, previous: string, text: string)
    requires m.Valid() && EndFoundBeforeStart(m, "")
    requires !Contains(previous, m.end) && !Contains(text, m.end)
    ensures UpdateSection(m, m.end + NewSection(m, previous), text) ==
              (if previous == text then NoChange else Write(m.end + NewSection(m, text)))
  {
    var n := NewSection(m, previous);
    var x := m.end + n;
    StrayEndBlockLocated(m, previous);
    UpdateSectionAt(m, x, text, |m.end|, |x|);
    assert x[|m.end|..] == n;
    assert x[|m.end|..|x|] == x[|m.end|..];
    assert x[..|m.end|] == m.end;
    assert x[|x|..] == "";
    NewSectionInjective(m, previous, text);
  }

  /** After a stray END, the block that follows is the block found. */
  lemma StrayEndBlockLocated(m: Layout, previous: string)
    requires m.Valid() && EndFoundBeforeStart(m, "")
    requires !Contains(previous, m.end)
    ensures LocateSection(m, m.end + NewSection(m, previous)) == Some(Span(|m.end|, |m.end| + |NewSection(m, previous)|))
  {
    assert m.end + m.start + "" == m.end + m.start;
    LocateWrittenSection(m, m.end, previous, "");
    assert m.end + NewSection(m, previous) + "" == m.end + NewSection(m, previous);
  }

  /** Equal blocks hold equal texts. */
  lemma NewSectionInjective(m: Layout, a: string, b: string)
    ensures NewSection(m, a) == NewSection(m, b) ==> a == b
  {
    if NewSection(m, a) == NewSection(m, b) {
      assert a == NewSection(m, a)[|m.start| + 1..|NewSection(m, a)| - 1 - |m.end|];
      assert b == NewSection(m, b)[|m.start| + 1..|NewSection(m, b)| - 1 - |m.end|];
    }
  }


  /** What the as-written removal decides from where the two searches land. */
  lemma {:induction false} RemoveAsWrittenAt(m: Layout, c: string, i: nat, e: nat, k: nat)
    requires IndexOf(c, m.start) == i && IndexOf(c, m.end) == e && k == e + |m.end|
    ensures RemoveSectionAsWritten(m, c) == Cut(m, Substring(c, 0, i), SubstringFrom(c, k))
  {
    assert RemoveSectionAsWritten(m, c) == RemoveBetween(m, c, i, e);
    RemoveBetweenFound(m, c, i, e, k);
  }

  /** Both markers found: the cut runs from the first START to the end of the first END. */
  lemma {:induction false} RemoveBetweenFound(m: Layout, c: string, i: nat, e: nat, k: nat)
    requires k == e + |m.end|
    ensures RemoveBetween(m, c, i, e) == Cut(m, Substring(c, 0, i), SubstringFrom(c, k))
  {
  }

  /**
   * No END marker begins before the first START has ended. On such files
   * searching END from the start of the file, as the extension does, finds
   * the END after START, and the code as written edits what the corrected
   * search edits.
   */
  predicate NoStrayEnd(m: Layout, c: string) {
    Contains(c, m.start) ==> forall j :: 0 <= j < IndexOf(c, m.start) + |m.start| ==> !OccursAt(c, m.end, j)
  }

  /** Without a stray END, `indexOf(END)` is the search for END after START. */
  lemma EndSearchAgrees(m: Layout, c: string)
    requires NoStrayEnd(m, c) && IndexOf(c, m.start) != -1
    ensures IndexOf(c, m.end) == IndexOfFrom(c, m.end, IndexOf(c, m.start) + |m.start|)
  {
    IndexOfFinds(c, m.start);
    IndexOfFromSkips(c, m.end, 0, IndexOf(c, m.start) + |m.start|);
  }

  /** Without a stray END, the update as written decides what the corrected update decides. */
  lemma UpdateAsWrittenAgrees(m: Layout, c: string, text: string)
    requires NoStrayEnd(m, c)
    ensures UpdateSectionAsWritten(m, c, text) == UpdateSection(m, c, text)
  {
    var i := IndexOf(c, m.start);
    if i != -1 {
      EndSearchAgrees(m, c);
      UpdateAsWrittenFound(m, c, text, i, IndexOf(c, m.end));
    }
  }

  /** Once `indexOf(END)` lands on the END after START, both updates cut at the same place. */
  lemma UpdateAsWrittenFound(m: Layout, c: string, text: string, i: nat, e: int)
    requires IndexOf(c, m.start) == i && IndexOf(c, m.end) == e
    requires e == IndexOfFrom(c, m.end, i + |m.start|)
    ensures UpdateSectionAsWritten(m, c, text) == UpdateSection(m, c, text)
  {
    if e != -1 {
      LocateSectionAt(m, c, i, e, e + |m.end|);
      SplicedBounds(c, i, e + |m.end|);
    }
  }

  /** Without a stray END, the removal as written decides what the corrected removal decides. */
  lemma RemoveAsWrittenAgrees(m: Layout, c: string)
    requires NoStrayEnd(m, c)
    ensures RemoveSectionAsWritten(m, c) == RemoveDecision(m, Some(c))
  {
    var i := IndexOf(c, m.start);
    if i != -1 {
      EndSearchAgrees(m, c);
      RemoveAsWrittenFound(m, c, i, IndexOf(c, m.end));
    }
  }

  /** Once `indexOf(END)` lands on the END after START, both removals cut at the same place. */
  lemma RemoveAsWrittenFound(m: Layout, c: string, i: nat, e: int)
    requires IndexOf(c, m.start) == i && IndexOf(c, m.end) == e
    requires e == IndexOfFrom(c, m.end, i + |m.start|)
    ensures RemoveSectionAsWritten(m, c) == RemoveDecision(m, Some(c))
  {
    if e == -1 {
      assert LocateSection(m, c).None?;
      assert RemoveSectionAsWritten(m, c) == RemoveBetween(m, c, i, e);
    } else {
      var k := e + |m.end|;
      LocateSectionAt(m, c, i, e, k);
      SplicedBounds(c, i, k);
      RemoveDecisionAt(m, c, i, k);
      RemoveAsWrittenAt(m, c, i, e, k);
    }
  }

  /** In-range `substring` calls are the slices they name. */
  lemma SplicedBounds(c: string, i: nat, k: nat)
    requires i <= k <= |c|
    ensures Substring(c, i, k) == c[i..k] && Substring(c, 0, i) == c[..i] && SubstringFrom(c, k) == c[k..]
  {
  }

  /** A text that does not end with a line break has no run of them to collapse. */
  lemma CollapseKeepsTrailing(s: string)
    requires |s| > 0 && s[|s| - 1] != '\n'
    ensures CollapseTrailingNewlines(s) == s
  {
    if |s| >= 2 {
      assert s[|s| - 2..][1] == s[|s| - 1];
    }
  }

  /** A text that does not start with a line break has no run of them to collapse. */
  lemma CollapseKeepsLeading(s: string)
    requires |s| > 0 && s[0] != '\n'
    ensures CollapseLeadingNewlines(s) == s
  {
    if |s| >= 2 {
      assert s[..2][0] == s[0];
    }
  }

  /** The edge characters of a valid layout's markers. */
  lemma ValidMarkerEdges(m: Layout)
    requires m.Valid()
    ensures m.start[0] != '\n' && m.end[0] != '\n' && m.end[|m.end| - 1] != '\n'
    ensures !IsWhitespace(m.end[0]) && !IsWhitespace(m.end[|m.end| - 1])
  {
  }

  /** What is left once an empty cut is made in front of the block that follows a stray END. */
  lemma StrayEndKeptWithBlock(m: Layout, text: string)
    requires m.Valid() && |m.header| < |m.end|
    ensures var x := m.end + NewSection(m, text);
            Cut(m, m.end, NewSection(m, text)) == Write(x + "\n")
  {
    ValidMarkerEdges(m);
    var x := m.end + NewSection(m, text);
    CollapseKeepsTrailing(m.end);
    assert NewSection(m, text)[0] == m.start[0];
    CollapseKeepsLeading(NewSection(m, text));
    assert x[0] == m.end[0] && x[|x| - 1] == m.end[|m.end| - 1];
    TrimVisibleEdges(x);
  }

  /** One as-written removal of a block that follows a stray END marker: the block is written back. */
  lemma RemoveAsWrittenOutOfOrder(m: Layout, text: string)
    requires m.Valid() && |m.header| < |m.end|
    requires EndFoundBeforeStart(m, "\n" + text + "\n" + m.end)
    ensures RemoveSectionAsWritten(m, m.end + NewSection(m, text)) == Write(m.end + NewSection(m, text) + "\n")
  {
    var x := m.end + NewSection(m, text);
    assert x == m.end + m.start + ("\n" + text + "\n" + m.end);
    RemoveAsWrittenAt(m, x, |m.end|, 0, |m.end|);
    assert Substring(x, 0, |m.end|) == m.end && SubstringFrom(x, |m.end|) == NewSection(m, text) by {
      assert x[..|m.end|] == m.end && x[|m.end|..] == NewSection(m, text);
    }
    StrayEndKeptWithBlock(m, text);
  }

  /** The corrected removal of a block that follows a stray END marker. */
  lemma RemoveOutOfOrder(m: Layout, text: string)
    requires m.Valid() && |m.header| < |m.end|
    requires EndFoundBeforeStart(m, "") && !Contains(text, m.end)
    ensures RemoveDecision(m, Some(m.end + NewSection(m, text))) == Write(m.end + "\n")
  {
    var x := m.end + NewSection(m, text);
    assert IndexOf(m.end + m.start, m.start) == |m.end| by {
      assert m.end + m.start + "" == m.end + m.start;
    }
    assert x == m.end + NewSection(m, text) + "";
    LocateWrittenSection(m, m.end, text, "");
    RemoveDecisionAt(m, x, |m.end|, |m.end| + |NewSection(m, text)|);
    assert x[..|m.end|] == m.end && x[|m.end| + |NewSection(m, text)|..] == "";
    StrayEndLeft(m);
  }

  /** Cutting out everything after a stray END marker leaves that marker as the whole file. */
  lemma {:induction false} StrayEndLeft(m: Layout)
    requires m.Valid() && |m.header| < |m.end|
    ensures Cut(m, m.end, "") == Write(m.end + "\n")
  {
    ValidMarkerEdges(m);
    CollapseKeepsTrailing(m.end);
    assert CollapseLeadingNewlines("") == "";
    assert m.end + "" == m.end;
    TrimVisibleEdges(m.end);
  }

}
