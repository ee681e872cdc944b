/**
 * The extension's own block layout: the TaskSync markers and the header
 * of a created file. The general properties of the block edits are proved
 * in `CopilotInstructions` for any valid layout; this module shows that
 * the extension's layout is valid and works out, for a file with a stray
 * END marker before the block, what the edits as written and as corrected
 * do.
 */
module TaskSyncLayout {

  import opened Wrappers
  import opened JsString
  import opened CopilotInstructions

  /** `TASKSYNC_SECTION_START`, `TASKSYNC_SECTION_END` and the header of a created file. */
  const TaskSync: Layout := Layout("<!-- [TaskSync] START -->", "<!-- [TaskSync] END -->", "# Copilot Instructions")

  /** The extension's markers hold no line break. */
  lemma TaskSyncSingleLine()
    ensures '\n' !in TaskSync.start && '\n' !in TaskSync.end
  {
    assert '\n' !in TaskSync.start;
    assert '\n' !in TaskSync.end;
  }

  /** The header of a created file lacks `<`, the first character of START. */
  lemma TaskSyncHeaderLacksStart()
    ensures TaskSync.start[0] !in TaskSync.header
  {
    assert TaskSync.start[0] == '<';
  }

  /** The extension's markers and header start and end with visible characters. */
  lemma TaskSyncVisibleEdges()
    ensures var m := TaskSync;
            && !IsWhitespace(m.start[0]) && !IsWhitespace(m.end[0]) && !IsWhitespace(m.end[|m.end| - 1])
            && !IsWhitespace(m.header[0]) && !IsWhitespace(m.header[|m.header| - 1])
  {
    var m := TaskSync;
    assert m.start[0] == '<' && m.end[0] == '<' && m.end[|m.end| - 1] == '>';
    assert m.header[0] == '#' && m.header[|m.header| - 1] == 's';
  }

  /** The extension's layout meets what the proofs about block edits need. */
  lemma TaskSyncValid()
    ensures TaskSync.Valid()
  {
    TaskSyncSingleLine();
    TaskSyncHeaderLacksStart();
    TaskSyncVisibleEdges();
  }

  /** The END marker has no `<` after its first character, so START cannot begin inside it. */
  lemma EndOpensOnce(j: int)
    requires 1 <= j < |TaskSync.end|
    ensures TaskSync.end[j] != '<'
  {
    EndSplitsAfterOpen();
    EndTailLacksOpen();
    assert TaskSync.end[j] == EndTail[j - 1];
    assert EndTail[j - 1] in EndTail;
  }

  /** The END marker after its opening `<`. */
  const EndTail: string := "!-- [TaskSync] END -->"

  lemma EndSplitsAfterOpen()
    ensures TaskSync.end == "<" + EndTail
  {
  }

  lemma EndTailLacksOpen()
    ensures '<' !in EndTail
  {
  }

  /** In the extension's layout, a leading END marker is found before START, whatever follows. */
  lemma TaskSyncEndFoundBeforeStart(rest: string)
    ensures EndFoundBeforeStart(TaskSync, rest)
  {
    var m := TaskSync;
    var x := m.end + m.start + rest;
    assert x[|m.end|..|m.end| + |m.start|] == m.start;
    forall j | 0 <= j < |m.end|
      ensures !OccursAt(x, m.start, j)
    {
      // The index inside the marker where START and the text at j differ.
      var k := if j == 0 then 16 else 0;
      assert x[j + k] == m.end[j + k];
      if j == 0 {
        assert m.end[16] == 'E' && m.start[16] == 'S';
      } else {
        EndOpensOnce(j);
        assert m.start[0] == '<';
      }
      assert x[j..j + |m.start|][k] == x[j + k] != m.start[k];
    }
    IndexOfFromIs(x, m.start, 0, |m.end|);
    assert x[..|m.end|] == m.end;
    IndexOfFromIs(x, m.end, 0, 0);
  }

  /**
   * As written, a stray END marker before the block makes every update
   * write: the block found is empty, a new block is inserted in front of
   * the old one, and the result has the same shape, so the next run
   * inserts yet another block.
   */
  lemma UpdateAsWrittenNeverSettles(rest: string, text: string)
    ensures var m := TaskSync;
            && UpdateSectionAsWritten(m, m.end + m.start + rest, text)
               == Write(m.end + NewSection(m, text) + m.start + rest)
            && UpdateSectionAsWritten(m, m.end + NewSection(m, text) + m.start + rest, text)
               == Write(m.end + NewSection(m, text) + NewSection(m, text) + m.start + rest)
  {
    var m := TaskSync;
    UpdateAsWrittenInsertsBlock(rest, text);
    var rest' := "\n" + text + "\n" + m.end + m.start + rest;
    InsertedBlockRegroups(m, rest, text);
    UpdateAsWrittenInsertsBlock(rest', text);
  }

  /** One update as written, with the stray END marker in front: the new block goes before START. */
  lemma UpdateAsWrittenInsertsBlock(rest: string, text: string)
    ensures var m := TaskSync;
            UpdateSectionAsWritten(m, m.end + m.start + rest, text)
            == Write(m.end + NewSection(m, text) + m.start + rest)
  {
    TaskSyncEndFoundBeforeStart(rest);
    UpdateAsWrittenOutOfOrder(TaskSync, rest, text);
  }

  /** A file with one inserted block again has the shape END, START, remainder. */
  lemma InsertedBlockRegroups(m: Layout, rest: string, text: string)
    ensures var rest' := "\n" + text + "\n" + m.end + m.start + rest;
            && m.end + NewSection(m, text) + m.start + rest == m.end + m.start + rest'
            && m.end + NewSection(m, text) + m.start + rest'
               == m.end + NewSection(m, text) + NewSection(m, text) + m.start + rest
  {
  }


  /** With the END marker searched after START, the same file gets its block replaced, once. */
  lemma UpdateAfterStrayEnd(previous: string, text: string)
    requires !Contains(previous, TaskSync.end) && !Contains(text, TaskSync.end)
    ensures var m := TaskSync;
            UpdateSection(m, m.end + NewSection(m, previous), text) ==
              (if previous == text then NoChange else Write(m.end + NewSection(m, text)))
  {
    TaskSyncValid();
    TaskSyncEndFoundBeforeStart("");
    UpdateOutOfOrder(TaskSync, previous, text);
  }

  /**
   * As written, removal with a stray END marker before the block keeps the
   * block: the text kept before START and the text kept after the stray
   * END overlap, and the file is rewritten with the block still in it.
   */
  lemma RemoveAsWrittenKeepsSection(text: string)
    ensures var m := TaskSync;
            RemoveSectionAsWritten(m, m.end + NewSection(m, text)) == Write(m.end + NewSection(m, text) + "\n")
  {
    TaskSyncValid();
    TaskSyncEndFoundBeforeStart("\n" + text + "\n" + TaskSync.end);
    RemoveAsWrittenOutOfOrder(TaskSync, text);
  }

  /** With the END marker searched after START, the same file loses its block. */
  lemma RemoveAfterStrayEnd(text: string)
    requires !Contains(text, TaskSync.end)
    ensures RemoveDecision(TaskSync, Some(TaskSync.end + NewSection(TaskSync, text))) == Write(TaskSync.end + "\n")
  {
    TaskSyncValid();
    TaskSyncEndFoundBeforeStart("");
    RemoveOutOfOrder(TaskSync, text);
  }
}
