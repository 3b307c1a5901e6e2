/** The per-user settings file: the patch merge that every settings update goes
    through, and the one-time migration from the two legacy files. */
module UserConfig {
  import opened Wrappers
  import opened Json

  datatype Language = Zh | En

  /** The remembered Claude profile and model. */
  datatype ClaudeChoice = ClaudeChoice(name: string, model: Option<string>)

  datatype Hints = Hints(mainHelpShown: Option<bool>)

  /** The settings object. `None` stands for a key that is absent (or `undefined`);
      `others` holds the remaining top-level keys (such as `git` and `repo`). */
  datatype Config = Config(
    language: Option<Language>,
    claude: Option<ClaudeChoice>,
    hints: Option<Hints>,
    others: map<string, Json>)

  /** A key of a patch object: left out, or written (possibly as `undefined`). */
  datatype Slot<T> = Absent | Present(value: Option<T>)

  datatype ClaudePatch = ClaudePatch(name: string, model: Slot<string>)

  datatype HintsPatch = HintsPatch(mainHelpShown: Slot<bool>)

  /** A partial settings object, as passed to `updateUserConfig`. For the nested
      `claude` and `hints` objects only a present object counts: an `undefined` one
      is falsy and leaves the current value. */
  datatype Patch = Patch(
    language: Slot<Language>,
    claude: Option<ClaudePatch>,
    hints: Option<HintsPatch>,
    others: map<string, Json>)

  /** One key of an object spread: the patch's value when the patch has the key. */
  function Override<T>(current: Option<T>, slot: Slot<T>): (r: Option<T>)
    ensures slot.Absent? ==> r == current
    ensures slot.Present? ==> r == slot.value
  {
    match slot
    case Absent => current
    case Present(v) => v
  }

  /** `{ ...current.claude, ...patch.claude }`. */
  function MergeClaude(current: Option<ClaudeChoice>, patch: ClaudePatch): (r: ClaudeChoice)
    ensures r.name == patch.name
    ensures r.model == Override(if current.Some? then current.value.model else None, patch.model)
  {
    ClaudeChoice(patch.name, Override(if current.Some? then current.value.model else None, patch.model))
  }

  /** `{ ...current.hints, ...patch.hints }`. */
  function MergeHints(current: Option<Hints>, patch: HintsPatch): (r: Hints)
    ensures r.mainHelpShown == Override(if current.Some? then current.value.mainHelpShown else None, patch.mainHelpShown)
  {
    Hints(Override(if current.Some? then current.value.mainHelpShown else None, patch.mainHelpShown))
  }

  /** The merge `updateUserConfig` saves: top-level keys the patch leaves out keep
      their values and keys it has are replaced, except that `claude` and `hints` are
      kept without a patch object and merged key by key with one. */
  function Update(current: Config, patch: Patch): (merged: Config)
    ensures patch.language.Absent? ==> merged.language == current.language
    ensures patch.language.Present? ==> merged.language == patch.language.value
    ensures merged.others.Keys == current.others.Keys + patch.others.Keys
    ensures forall k :: k in merged.others ==>
      merged.others[k] == if k in patch.others then patch.others[k] else current.others[k]
    ensures patch.claude.None? ==> merged.claude == current.claude
    ensures patch.claude.Some? ==> merged.claude.Some? && merged.claude.value.name == patch.claude.value.name
    ensures patch.claude.Some? && patch.claude.value.model.Absent? && current.claude.Some? ==>
      merged.claude.value.model == current.claude.value.model
    ensures patch.claude.Some? && patch.claude.value.model.Present? ==>
      merged.claude.value.model == patch.claude.value.model.value
    ensures patch.claude.Some? && patch.claude.value.model.Absent? && current.claude.None? ==>
      merged.claude.value.model == None
    ensures patch.hints.None? ==> merged.hints == current.hints
    ensures patch.hints.Some? && patch.hints.value.mainHelpShown.Absent? && current.hints.Some? ==>
      merged.hints == current.hints
    ensures patch.hints.Some? && patch.hints.value.mainHelpShown.Present? ==>
      merged.hints == Some(Hints(patch.hints.value.mainHelpShown.value))
    ensures patch.hints.Some? && patch.hints.value.mainHelpShown.Absent? && current.hints.None? ==>
      merged.hints == Some(Hints(None))
  {
    Config(
      Override(current.language, patch.language),
      if patch.claude.Some? then Some(MergeClaude(current.claude, patch.claude.value)) else current.claude,
      if patch.hints.Some? then Some(MergeHints(current.hints, patch.hints.value)) else current.hints,
      current.others + patch.others)
  }

  /** Overriding twice with the same key is overriding once. */
  lemma OverrideTwice<T>(current: Option<T>, slot: Slot<T>)
    ensures Override(Override(current, slot), slot) == Override(current, slot)
  {
  }

  /** Applying the same patch twice gives what applying it once gives. */
  lemma {:induction false} UpdateIdempotent(current: Config, patch: Patch)
    ensures Update(Update(current, patch), patch) == Update(current, patch)
  {
    var once := Update(current, patch);
    OverrideTwice(current.language, patch.language);
    if patch.claude.Some? {
      var oldModel := if current.claude.Some? then current.claude.value.model else None;
      OverrideTwice(oldModel, patch.claude.value.model);
    }
    if patch.hints.Some? {
      var oldShown := if current.hints.Some? then current.hints.value.mainHelpShown else None;
      OverrideTwice(oldShown, patch.hints.value.mainHelpShown);
    }
    assert once.others + patch.others == current.others + patch.others;
  }

  /** Saving the current profile choice (`claude.ts` passes both `name` and `model`)
      replaces the remembered choice whole and touches nothing else. */
  lemma SavedChoiceReadsBack(current: Config, name: string, model: Option<string>)
    ensures var saved := Update(current, Patch(Absent, Some(ClaudePatch(name, Present(model))), None, map[]));
      saved == current.(claude := Some(ClaudeChoice(name, model)))
  {
    var saved := Update(current, Patch(Absent, Some(ClaudePatch(name, Present(model))), None, map[]));
    assert saved.others == current.others;
  }

  /** The language a legacy `language.json` carries: its `lang` field when it is
      `"zh"` or `"en"`. */
  function LegacyLanguage(file: Option<Json>): (r: Option<Language>)
    ensures r == Some(Zh) <==> file.Some? && StringMember(file.value, "lang") == Some("zh")
    ensures r == Some(En) <==> file.Some? && StringMember(file.value, "lang") == Some("en")
  {
    if file.None? then None
    else
      match StringMember(file.value, "lang")
      case Some(lang) =>
        if lang == "zh" then Some(Zh) else if lang == "en" then Some(En) else None
      case None => None
  }

  /** The profile choice a legacy `claude-current.json` carries: present only when its
      `name` is a string; the model is kept when it is a string. */
  function LegacyClaude(file: Option<Json>): (r: Option<ClaudeChoice>)
    ensures r.Some? <==> file.Some? && StringMember(file.value, "name").Some?
    ensures r.Some? ==> r.value == ClaudeChoice(StringMember(file.value, "name").value, StringMember(file.value, "model"))
  {
    if file.None? then None
    else
      match StringMember(file.value, "name")
      case Some(name) => Some(ClaudeChoice(name, StringMember(file.value, "model")))
      case None => None
  }

  /** Builds a settings object from the two legacy files (each `None` when missing or
      unreadable), field by field, and reports `None` when neither contributed. */
  method MigrateLegacyConfig(legacyLang: Option<Json>, legacyClaude: Option<Json>) returns (r: Option<Config>)
    ensures r.Some? <==> LegacyLanguage(legacyLang).Some? || LegacyClaude(legacyClaude).Some?
    ensures r.Some? ==> r.value == Config(LegacyLanguage(legacyLang), LegacyClaude(legacyClaude), None, map[])
  {
    var changed := false;
    var config := Config(None, None, None, map[]);
    if legacyLang.Some? {
      var lang := StringMember(legacyLang.value, "lang");
      if lang == Some("zh") || lang == Some("en") {
        config := config.(language := if lang == Some("zh") then Some(Zh) else Some(En));
        changed := true;
      }
    }
    if legacyClaude.Some? {
      var name := StringMember(legacyClaude.value, "name");
      if name.Some? {
        config := config.(claude := Some(ClaudeChoice(name.value, StringMember(legacyClaude.value, "model"))));
        changed := true;
      }
    }
    r := if changed then Some(config) else None;
  }
}
