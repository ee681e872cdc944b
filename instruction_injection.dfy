/**
 * `handleInstructionInjection`: first the migration of the global
 * settings value, then, by the configured method, removal from one place
 * and injection into the other (or removal from both). The settings and
 * the instructions file it reads and writes are gathered in an
 * `Environment` value, and each step returns the environment after its
 * write.
 */
module InstructionInjection {

  import opened Wrappers
  import opened JsString
  import opened CopilotInstructions
  import opened TaskSyncLayout
  import opened CodeGenSettings

  /** The values of `tasksync.instructionInjection` the dispatch tells apart. */
  datatype InjectionMethod = Off | CopilotInstructionsMd | CodeGenerationSetting

  /**
   * `config.get('instructionInjection', 'off')` and the `switch` on it: an
   * unset value reads as `off`, and any value other than the two known
   * methods falls into the `off` branch.
   */
  function ParseMethod(setting: Option<string>): (m: InjectionMethod)
    ensures m == CopilotInstructionsMd <==> setting == Some("copilotInstructionsMd")
    ensures m == CodeGenerationSetting <==> setting == Some("codeGenerationSetting")
  {
    var name := setting.GetOr("off");
    if name == "copilotInstructionsMd" then CopilotInstructionsMd
    else if name == "codeGenerationSetting" then CodeGenerationSetting
    else Off
  }

  /** What the handler reads and writes. */
  datatype Environment = Environment(
    injection: Option<string>,                          // `tasksync.instructionInjection`
    instructionText: string,                            // `tasksync.instructionText`, '' when unset
    globalInstructions: Option<seq<Instruction>>,       // global value of `codeGeneration.instructions`
    workspaceInstructions: Option<seq<Instruction>>,    // workspace value of `codeGeneration.instructions`
    hasWorkspaceFolder: bool,
    instructionsFile: Option<string>)                   // `.github/copilot-instructions.md`, None when unreadable

  /** `copilotConfig.get('codeGeneration.instructions', [])`: the workspace value, else the global one, else `[]`. */
  function EffectiveInstructions(env: Environment): seq<Instruction> {
    if env.workspaceInstructions.Some? then env.workspaceInstructions.value
    else env.globalInstructions.GetOr([])
  }

  /** A settings value after a decision is carried out at its level. */
  function Apply(value: Option<seq<Instruction>>, d: SettingsDecision): Option<seq<Instruction>> {
    match d
    case NoUpdate => value
    case Update(v) => v
  }

  /** `migrateGlobalToWorkspaceInstructions`: writes at the global level. */
  function MigrateStep(env: Environment): (r: Environment)
    ensures r == env.(globalInstructions := r.globalInstructions)
    ensures r.globalInstructions != env.globalInstructions
            ==> env.globalInstructions.Some? && AnyTagged(env.globalInstructions.value)
  {
    env.(globalInstructions := Apply(env.globalInstructions, Migrate(env.globalInstructions)))
  }

  /** `removeFromCodeGenSettings`: reads the effective list, writes at the workspace level. */
  function RemoveSettingsStep(env: Environment): (r: Environment)
    ensures r == env.(workspaceInstructions := r.workspaceInstructions)
    ensures r.workspaceInstructions != env.workspaceInstructions ==> AnyTagged(EffectiveInstructions(env))
  {
    env.(workspaceInstructions := Apply(env.workspaceInstructions, RemoveFromCodeGen(EffectiveInstructions(env))))
  }

  /** `injectIntoCodeGenSettings`: reads the effective list, writes at the workspace level. */
  function InjectSettingsStep(env: Environment): (r: Environment)
    ensures r == env.(workspaceInstructions := r.workspaceInstructions)
    ensures Trim(env.instructionText) == "" ==> r == env
  {
    env.(workspaceInstructions :=
           Apply(env.workspaceInstructions, Upsert(EffectiveInstructions(env), env.instructionText)))
  }

  /** The instructions file after `removeFromCopilotInstructionsMd`: untouched without a workspace folder. */
  function FileAfterRemoval(hasWorkspaceFolder: bool, file: Option<string>): Option<string> {
    if !hasWorkspaceFolder then file
    else match RemoveDecision(TaskSync, file)
      case Write(c) => Some(c)
      case Delete => None
      case _ => file
  }

  /** `removeFromCopilotInstructionsMd`: writes or deletes the file only. */
  function RemoveFileStep(env: Environment): (r: Environment)
    ensures r == env.(instructionsFile := r.instructionsFile)
    ensures !env.hasWorkspaceFolder ==> r == env
  {
    env.(instructionsFile := FileAfterRemoval(env.hasWorkspaceFolder, env.instructionsFile))
  }

  /** What `injectIntoCopilotInstructionsMd` decides, or NoChange without a workspace folder. */
  function InjectDecision(env: Environment, allow: bool): FileDecision {
    if !env.hasWorkspaceFolder then NoChange
    else Inject(TaskSync, env.instructionsFile, env.instructionText, allow)
  }

  /**
   * `injectIntoCopilotInstructionsMd`: writes the file, or, when the user
   * declines, sets the method back to `off`.
   */
  function InjectFileStep(env: Environment, allow: bool): (r: Environment)
    ensures r == env.(instructionsFile := r.instructionsFile, injection := r.injection)
    ensures r.injection != env.injection ==> !allow && r.injection == Some("off")
    ensures r.instructionsFile != env.instructionsFile ==> env.hasWorkspaceFolder
  {
    var d := InjectDecision(env, allow);
    env.(instructionsFile := if d.Write? then Some(d.content) else env.instructionsFile,
         injection := if d.ResetToOff? then Some("off") else env.injection)
  }

  /** `handleInstructionInjection`; `allow` is the user's answer should a prompt be shown. */
  function HandleInstructionInjection(env: Environment, allow: bool): (r: Environment)
    ensures r.instructionText == env.instructionText && r.hasWorkspaceFolder == env.hasWorkspaceFolder
    ensures r.injection != env.injection ==> r.injection == Some("off")
    ensures !env.hasWorkspaceFolder ==> r.instructionsFile == env.instructionsFile
  {
    var migrated := MigrateStep(env);
    match ParseMethod(env.injection)
    case CopilotInstructionsMd => InjectFileStep(RemoveSettingsStep(migrated), allow)
    case CodeGenerationSetting => InjectSettingsStep(RemoveFileStep(migrated))
    case Off => RemoveFileStep(RemoveSettingsStep(migrated))
  }

  predicate GlobalClean(env: Environment) {
    env.globalInstructions.Some? ==> !AnyTagged(env.globalInstructions.value)
  }

  /** The migration leaves no tagged entry at the global level. */
  lemma MigrateCleansGlobal(env: Environment)
    ensures GlobalClean(MigrateStep(env))
  {
    if env.globalInstructions.Some? && AnyTagged(env.globalInstructions.value) {
      var filtered := RemoveTagged(env.globalInstructions.value);
      assert !AnyTagged(filtered) by {
        forall i | 0 <= i < |filtered| ensures !Tagged(filtered[i]) {
          assert filtered[i] in filtered;
        }
      }
    }
  }

  /** Once the global level is clean, removal leaves no tagged entry in the effective list. */
  lemma RemoveSettingsCleans(env: Environment)
    requires GlobalClean(env)
    ensures GlobalClean(RemoveSettingsStep(env)) && !AnyTagged(EffectiveInstructions(RemoveSettingsStep(env)))
  {
    var eff := EffectiveInstructions(env);
    var d := RemoveFromCodeGen(eff);
    if d.NoUpdate? {
      assert !AnyTagged(eff);
    } else {
      assert !AnyTagged(ReadBack(eff, d));
    }
  }

  /**
   * Every method ends with no `[TaskSync]` entry at the global level; the
   * global value is only ever written by the migration.
   */
  lemma HandleCleansGlobal(env: Environment, allow: bool)
    ensures GlobalClean(HandleInstructionInjection(env, allow))
  {
    MigrateCleansGlobal(env);
  }

  /**
   * Under `off` (or an unknown method) and under `copilotInstructionsMd`
   * the effective settings list ends with no `[TaskSync]` entry.
   */
  lemma HandleClearsSettingsUnlessSettingMethod(env: Environment, allow: bool)
    requires ParseMethod(env.injection) != CodeGenerationSetting
    ensures !AnyTagged(EffectiveInstructions(HandleInstructionInjection(env, allow)))
  {
    MigrateCleansGlobal(env);
    RemoveSettingsCleans(MigrateStep(env));
  }

  /**
   * Under `codeGenerationSetting` with a non-blank text, the first
   * `[TaskSync]` entry of the effective list ends up reading
   * `"[TaskSync] " + text`.
   */
  lemma HandleInjectsUnderSettingMethod(env: Environment, allow: bool)
    requires ParseMethod(env.injection) == CodeGenerationSetting && Trim(env.instructionText) != ""
    ensures var eff := EffectiveInstructions(HandleInstructionInjection(env, allow));
            AnyTagged(eff) && eff[FindTagged(eff)].text == Some(SettingsText(env.instructionText))
  {
    var before := RemoveFileStep(MigrateStep(env));
    var eff := EffectiveInstructions(before);
    var d := Upsert(eff, env.instructionText);
    if d.NoUpdate? {
      assert AnyTagged(eff) && eff[FindTagged(eff)].text == Some(SettingsText(env.instructionText)) by {
        if !AnyTagged(eff) {
          UpsertAppendsOrSettles(eff, env.instructionText);
        }
      }
    }
  }

  /**
   * Only `copilotInstructionsMd` asks the user: under any other method the
   * answer makes no difference, and only there can the method be set back
   * to `off`.
   */
  lemma OnlyFileMethodPrompts(env: Environment, allow: bool)
    ensures ParseMethod(env.injection) != CopilotInstructionsMd ==>
              HandleInstructionInjection(env, allow) == HandleInstructionInjection(env, !allow)
    ensures var r := HandleInstructionInjection(env, allow);
            r.injection != env.injection ==>
              ParseMethod(env.injection) == CopilotInstructionsMd && !allow && r.injection == Some("off")
  {
  }

  /**
   * Handling twice in a row changes no setting the second time, whatever
   * the method and the answers.
   */
  lemma HandleSettingsSettle(env: Environment, allow: bool, allowAgain: bool)
    ensures var once := HandleInstructionInjection(env, allow);
            var twice := HandleInstructionInjection(once, allowAgain);
            twice.globalInstructions == once.globalInstructions
            && twice.workspaceInstructions == once.workspaceInstructions
            && twice.injection == once.injection
  {
    var once := HandleInstructionInjection(env, allow);
    HandleCleansGlobal(env, allow);
    assert MigrateStep(once) == once;
    match ParseMethod(once.injection)
    case CodeGenerationSetting =>
      assert ParseMethod(env.injection) == CodeGenerationSetting;
      var eff := EffectiveInstructions(RemoveFileStep(MigrateStep(env)));
      UpsertIdempotent(eff, env.instructionText);
      assert EffectiveInstructions(once) == ReadBack(eff, Upsert(eff, env.instructionText));
    case _ =>
      if ParseMethod(env.injection) == CodeGenerationSetting {
        assert false;
      }
      HandleClearsSettingsUnlessSettingMethod(env, allow);
      if ParseMethod(env.injection) == CopilotInstructionsMd && ParseMethod(once.injection) == CopilotInstructionsMd {
        InjectionKeptOnSecondRun(env, allow, allowAgain);
      }
  }

  /**
   * Under `copilotInstructionsMd`, a first run that kept the method leaves
   * a second run nothing to prompt for: the file it wrote holds the block,
   * and a file it left alone is left alone again.
   */
  lemma InjectionKeptOnSecondRun(env: Environment, allow: bool, allowAgain: bool)
    requires ParseMethod(env.injection) == CopilotInstructionsMd
    requires ParseMethod(HandleInstructionInjection(env, allow).injection) == CopilotInstructionsMd
    ensures var once := HandleInstructionInjection(env, allow);
            HandleInstructionInjection(once, allowAgain).injection == once.injection
  {
    var prepared := RemoveSettingsStep(MigrateStep(env));
    var d := InjectDecision(prepared, allow);
    var once := InjectFileStep(prepared, allow);
    assert once == HandleInstructionInjection(env, allow);
    var again := RemoveSettingsStep(MigrateStep(once));
    assert again.instructionsFile == once.instructionsFile && again.hasWorkspaceFolder == env.hasWorkspaceFolder;
    assert again.instructionText == env.instructionText;
    if d.Write? {
      WrittenHoldsStart(TaskSync, env.instructionsFile, env.instructionText, allow);
      SectionPresentNeverPrompts(TaskSync, d.content, env.instructionText);
    } else if env.hasWorkspaceFolder {
      NoChangeWhateverAnswer(TaskSync, env.instructionsFile, env.instructionText, allow, allowAgain);
    }
  }

  /**
   * Under `copilotInstructionsMd`, handling a second time leaves the file
   * as the first run left it, whatever the two answers, as long as the
   * text holds no END marker: a written block is found again and reads
   * the same, a declined prompt switched the method to `off` and left no
   * block to remove, and a run that changed nothing changes nothing again.
   */
  lemma HandleFileSettles(env: Environment, allow: bool, allowAgain: bool)
    requires ParseMethod(env.injection) == CopilotInstructionsMd
    requires !Contains(env.instructionText, TaskSync.end)
    ensures var once := HandleInstructionInjection(env, allow);
            HandleInstructionInjection(once, allowAgain).instructionsFile == once.instructionsFile
  {
    var prepared := RemoveSettingsStep(MigrateStep(env));
    var d := InjectDecision(prepared, allow);
    var once := InjectFileStep(prepared, allow);
    assert once == HandleInstructionInjection(env, allow);
    if d.ResetToOff? {
      assert ParseMethod(once.injection) == Off;
      DeclinedLeavesNothingToRemove(TaskSync, env.instructionsFile, env.instructionText, allow);
    } else {
      assert ParseMethod(once.injection) == CopilotInstructionsMd;
      var again := RemoveSettingsStep(MigrateStep(once));
      assert again.instructionsFile == once.instructionsFile && again.hasWorkspaceFolder == env.hasWorkspaceFolder;
      assert again.instructionText == env.instructionText;
      if d.Write? {
        TaskSyncValid();
        InjectIdempotent(TaskSync, env.instructionsFile, env.instructionText, allow, allowAgain);
      } else if env.hasWorkspaceFolder {
        NoChangeWhateverAnswer(TaskSync, env.instructionsFile, env.instructionText, allow, allowAgain);
      }
    }
  }

  // ---------------------------------------------------------------------
  // As written: the migration's global write is not awaited
  // ---------------------------------------------------------------------

  /**
   * The `codeGenerationSetting` branch when the migration's write to the
   * global level, which the handler does not await, lands only after
   * `injectIntoCodeGenSettings` has read the effective list: the same
   * steps, with the migration's write applied last.
   */
  function SettingMethodWithStaleRead(env: Environment): (r: Environment)
    ensures r.globalInstructions == MigrateStep(env).globalInstructions
    ensures r.instructionsFile == RemoveFileStep(env).instructionsFile
  {
    MigrateStep(InjectSettingsStep(RemoveFileStep(env)))
  }

  /**
   * With no workspace value and only the extension's own entry at the
   * global level, the stale read finds the entry already in place and
   * writes nothing, and the migration then removes it: no `[TaskSync]`
   * entry is left. Applied in program order, the entry ends up in the
   * workspace list.
   */
  lemma StaleReadDropsEntry(env: Environment, allow: bool)
    requires ParseMethod(env.injection) == CodeGenerationSetting && Trim(env.instructionText) != ""
    requires env.workspaceInstructions.None? && env.globalInstructions == Some([TaskSyncEntry(env.instructionText)])
    ensures !AnyTagged(EffectiveInstructions(SettingMethodWithStaleRead(env)))
    ensures AnyTagged(EffectiveInstructions(HandleInstructionInjection(env, allow)))
  {
    var entry := TaskSyncEntry(env.instructionText);
    TaskSyncEntryTagged(env.instructionText);
    assert Tagged([entry][0]);
    var read := RemoveFileStep(env);
    assert EffectiveInstructions(read) == [entry];
    assert FindTagged([entry]) == 0;
    assert InjectSettingsStep(read) == read;
    assert RemoveTagged([entry]) == [];
    HandleInjectsUnderSettingMethod(env, allow);
  }
}
