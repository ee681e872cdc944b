/**
 * The `[TaskSync]`-tagged entries of the `codeGeneration.instructions`
 * setting (a list of `{ text?, file? }` objects): injection upserts one
 * tagged entry, removal and the one-time migration of the global value
 * filter all tagged entries out. Settings writes become a returned
 * decision, and the list read back after a write of `undefined` is the
 * setting's default, the empty list.
 */
module CodeGenSettings {

  import opened Wrappers
  import opened JsString

  /** `TASKSYNC_MARKER`. */
  const Marker: string := "[TaskSync]"

  /** One entry of the setting: an inline text, a file reference, or both. */
  datatype Instruction = Instruction(text: Option<string>, file: Option<string>)

  /**
   * `inst.text && inst.text.includes(TASKSYNC_MARKER)`: an absent text is
   * not tagged, and an empty one (falsy) holds no marker either.
   */
  predicate Tagged(inst: Instruction) {
    inst.text.Some? && Contains(inst.text.value, Marker)
  }

  predicate AnyTagged(list: seq<Instruction>) {
    exists i :: 0 <= i < |list| && Tagged(list[i])
  }

  /** What a settings edit decides: leave the setting alone, or write a list (None writes `undefined`). */
  datatype SettingsDecision =
    | NoUpdate
    | Update(value: Option<seq<Instruction>>)

  /** The list read back from the setting after the decision is carried out. */
  function ReadBack(current: seq<Instruction>, d: SettingsDecision): seq<Instruction> {
    match d
    case NoUpdate => current
    case Update(v) => v.GetOr([])
  }

  /** `settingsText`: the marker, a space, then the instruction text as configured. */
  function SettingsText(text: string): string {
    Marker + " " + text
  }

  /** The entry injection writes: its text only, no file reference. */
  function TaskSyncEntry(text: string): Instruction {
    Instruction(Some(SettingsText(text)), None)
  }

  /** The injected entry carries the marker. */
  lemma TaskSyncEntryTagged(text: string)
    ensures Tagged(TaskSyncEntry(text))
  {
    assert OccursAt(SettingsText(text), Marker, 0) by {
      assert SettingsText(text)[..|Marker|] == Marker;
    }
  }

  /** `findIndex` for a tagged entry: the index of the first one, or -1 when there is none. */
  function FindTagged(list: seq<Instruction>): (r: int)
    ensures r == -1 <==> !AnyTagged(list)
    ensures r != -1 ==> 0 <= r < |list| && Tagged(list[r]) && forall j :: 0 <= j < r ==> !Tagged(list[j])
  {
    if |list| == 0 then -1
    else if Tagged(list[0]) then 0
    else
      var r := FindTagged(list[1..]);
      assert forall j :: 1 <= j < |list| ==> list[j] == list[1..][j - 1];
      if r == -1 then -1 else r + 1
  }

  /**
   * `injectIntoCodeGenSettings`, given the list it reads: nothing for a
   * blank text; otherwise the entry is appended when no entry is tagged,
   * and replaces the first tagged entry when that one reads differently.
   */
  function Upsert(current: seq<Instruction>, text: string): (d: SettingsDecision)
    ensures Trim(text) == "" ==> d == NoUpdate
    ensures d.Update? ==> d.value.Some? && AnyTagged(d.value.value)
                          && d.value.value[FindTagged(d.value.value)] == TaskSyncEntry(text)
  {
    if Trim(text) == "" then NoUpdate
    else
      var i := FindTagged(current);
      TaskSyncEntryTagged(text);
      if i == -1 then
        FindTaggedAfterUntagged(current, TaskSyncEntry(text));
        Update(Some(current + [TaskSyncEntry(text)]))
      else if current[i].text != Some(SettingsText(text)) then
        FindTaggedReplaced(current, TaskSyncEntry(text));
        Update(Some(current[i := TaskSyncEntry(text)]))
      else NoUpdate
  }

  /** A tagged entry appended to a list without tagged entries is its first tagged one. */
  lemma FindTaggedAfterUntagged(a: seq<Instruction>, x: Instruction)
    requires !AnyTagged(a) && Tagged(x)
    ensures AnyTagged(a + [x]) && FindTagged(a + [x]) == |a|
  {
    assert (a + [x])[|a|] == x;
    assert forall j :: 0 <= j < |a| ==> (a + [x])[j] == a[j];
  }

  /** Replacing the first tagged entry by another tagged entry keeps the first one in place. */
  lemma FindTaggedReplaced(a: seq<Instruction>, x: Instruction)
    requires AnyTagged(a) && Tagged(x)
    ensures var l := a[FindTagged(a) := x];
            AnyTagged(l) && FindTagged(l) == FindTagged(a)
  {
    var l := a[FindTagged(a) := x];
    assert l[FindTagged(a)] == x;
  }

  /**
   * With no tagged entry, the entry is appended at the end and the other
   * entries are kept in order; a tagged entry that already reads the same
   * is left alone, whatever follows it.
   */
  lemma UpsertAppendsOrSettles(current: seq<Instruction>, text: string)
    requires Trim(text) != ""
    ensures !AnyTagged(current) ==> Upsert(current, text) == Update(Some(current + [TaskSyncEntry(text)]))
    ensures AnyTagged(current) && current[FindTagged(current)].text == Some(SettingsText(text))
            ==> Upsert(current, text) == NoUpdate
    ensures AnyTagged(current) && current[FindTagged(current)].text != Some(SettingsText(text))
            ==> Upsert(current, text) == Update(Some(current[FindTagged(current) := TaskSyncEntry(text)]))
  {
  }

  /**
   * An update that replaces changes only the first tagged entry: every
   * other position keeps its entry, and the length is unchanged.
   */
  lemma UpsertReplacesOnlyFirstTagged(current: seq<Instruction>, text: string)
    requires AnyTagged(current) && Upsert(current, text).Update?
    ensures var l := Upsert(current, text).value.value;
            && |l| == |current|
            && l[FindTagged(current)] == TaskSyncEntry(text)
            && forall j :: 0 <= j < |l| && j != FindTagged(current) ==> l[j] == current[j]
  {
  }

  /** Re-running the upsert on what it wrote is a no-op. */
  lemma UpsertIdempotent(current: seq<Instruction>, text: string)
    ensures var once := ReadBack(current, Upsert(current, text));
            Upsert(once, text) == NoUpdate
  {
    var d := Upsert(current, text);
    var once := ReadBack(current, d);
    if Trim(text) != "" {
      if d.Update? {
        assert once[FindTagged(once)].text == Some(SettingsText(text));
      } else if AnyTagged(current) {
        assert current[FindTagged(current)].text == Some(SettingsText(text));
      }
    }
  }

  /** `filter` keeping the untagged entries, in order. */
  function RemoveTagged(list: seq<Instruction>): (r: seq<Instruction>)
    ensures |r| <= |list|
    ensures forall x :: x in r <==> x in list && !Tagged(x)
    ensures |r| == |list| <==> !AnyTagged(list)
  {
    if |list| == 0 then []
    else
      var rest := RemoveTagged(list[1..]);
      assert forall x :: x in list <==> x == list[0] || x in list[1..];
      assert AnyTagged(list) <==> Tagged(list[0]) || AnyTagged(list[1..]) by {
        assert forall j :: 1 <= j < |list| ==> list[j] == list[1..][j - 1];
        if AnyTagged(list[1..]) {
          var j :| 0 <= j < |list[1..]| && Tagged(list[1..][j]);
          assert list[j + 1] == list[1..][j];
        }
      }
      if Tagged(list[0]) then rest else [list[0]] + rest
  }

  /** Filtering distributes over concatenation: each part keeps its own untagged entries, in order. */
  lemma {:induction false} RemoveTaggedAppend(a: seq<Instruction>, b: seq<Instruction>)
    ensures RemoveTagged(a + b) == RemoveTagged(a) + RemoveTagged(b)
    decreases |a|
  {
    if |a| == 0 {
      assert a + b == b;
    } else {
      assert (a + b)[0] == a[0];
      assert (a + b)[1..] == a[1..] + b;
      RemoveTaggedAppend(a[1..], b);
    }
  }

  /** Filtering a list without tagged entries leaves it as it is. */
  lemma RemoveTaggedUntagged(list: seq<Instruction>)
    requires !AnyTagged(list)
    ensures RemoveTagged(list) == list
  {
    if |list| > 0 {
      assert !AnyTagged(list[1..]) by {
        forall j | 0 <= j < |list[1..]| ensures !Tagged(list[1..][j]) {
          assert list[1..][j] == list[j + 1];
        }
      }
      RemoveTaggedUntagged(list[1..]);
      assert !Tagged(list[0]);
    }
  }

  /** Replacing a tagged entry by a tagged one does not change what filtering keeps. */
  lemma {:induction false} RemoveTaggedReplace(list: seq<Instruction>, i: nat, x: Instruction)
    requires i < |list| && Tagged(list[i]) && Tagged(x)
    ensures RemoveTagged(list[i := x]) == RemoveTagged(list)
    decreases i
  {
    var l := list[i := x];
    assert l[0] == if i == 0 then x else list[0];
    if i == 0 {
      assert l[1..] == list[1..];
    } else {
      assert l[1..] == list[1..][i - 1 := x];
      RemoveTaggedReplace(list[1..], i - 1, x);
    }
  }

  /**
   * The upsert touches only tagged entries: filtering the list it wrote
   * gives back exactly what filtering the original gives.
   */
  lemma UpsertThenRemoveTagged(current: seq<Instruction>, text: string)
    ensures RemoveTagged(ReadBack(current, Upsert(current, text))) == RemoveTagged(current)
  {
    var d := Upsert(current, text);
    if d.Update? {
      TaskSyncEntryTagged(text);
      if AnyTagged(current) {
        RemoveTaggedReplace(current, FindTagged(current), TaskSyncEntry(text));
      } else {
        RemoveTaggedAppend(current, [TaskSyncEntry(text)]);
        assert RemoveTagged([TaskSyncEntry(text)]) == [];
        assert RemoveTagged(current) + [] == RemoveTagged(current);
      }
    }
  }

  /**
   * `removeFromCodeGenSettings`, given the list it reads: when something is
   * tagged, write the untagged entries, or `undefined` when none is left.
   */
  function RemoveFromCodeGen(current: seq<Instruction>): (d: SettingsDecision)
    ensures d.NoUpdate? <==> !AnyTagged(current)
    ensures d.Update? ==> (d.value.Some? ==> |d.value.value| > 0) && !AnyTagged(ReadBack(current, d))
  {
    var filtered := RemoveTagged(current);
    if |filtered| != |current| then Update(if |filtered| > 0 then Some(filtered) else None)
    else NoUpdate
  }

  /** What removal leaves is exactly the untagged entries, in order. */
  lemma RemoveKeepsUntagged(current: seq<Instruction>)
    ensures ReadBack(current, RemoveFromCodeGen(current)) == RemoveTagged(current)
  {
    if !AnyTagged(current) {
      RemoveTaggedUntagged(current);
    }
  }

  /** Removal is idempotent: once the tagged entries are gone, it writes nothing. */
  lemma RemoveIdempotent(current: seq<Instruction>)
    ensures RemoveFromCodeGen(ReadBack(current, RemoveFromCodeGen(current))) == NoUpdate
  {
  }

  /**
   * `migrateGlobalToWorkspaceInstructions`, given the global value (None
   * when it is not set): when it holds a tagged entry, write its untagged
   * entries back, or `undefined` when none is left.
   */
  function Migrate(global: Option<seq<Instruction>>): (d: SettingsDecision)
    ensures d.Update? <==> global.Some? && AnyTagged(global.value)
  {
    if global.Some? && AnyTagged(global.value) then
      var filtered := RemoveTagged(global.value);
      Update(if |filtered| > 0 then Some(filtered) else None)
    else NoUpdate
  }

  /** On a global value that is set, the migration decides exactly what removal decides. */
  lemma MigrateAgreesWithRemove(global: seq<Instruction>)
    ensures Migrate(Some(global)) == RemoveFromCodeGen(global)
  {
  }
}
