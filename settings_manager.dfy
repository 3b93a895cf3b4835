/** Application settings (src-tauri/src/settings_manager.rs): two optional
    fields, defaulted to "run on startup" and log level "low", kept in
    archway_settings.json next to the executable. */
module SettingsManager {
  import opened Structs

  /** The value of a SettingsJSON record, as it is stored in the file. */
  datatype SettingsValue = SettingsValue(runOnStartup: Option<bool>, logLevel: Option<string>)

  type SettingsFile = Document<SettingsValue>

  const DefaultRunOnStartup: bool := true
  const DefaultLogLevel: string := "low"

  /** The record with every missing field given its default. */
  function Defaulted(v: SettingsValue): (r: SettingsValue)
    ensures r.runOnStartup.Some? && r.logLevel.Some?
    ensures v.runOnStartup.Some? ==> r.runOnStartup == v.runOnStartup
    ensures v.logLevel.Some? ==> r.logLevel == v.logLevel
    ensures v.runOnStartup.None? ==> r.runOnStartup == Some(DefaultRunOnStartup)
    ensures v.logLevel.None? ==> r.logLevel == Some(DefaultLogLevel)
  {
    SettingsValue(
      if v.runOnStartup.None? then Some(DefaultRunOnStartup) else v.runOnStartup,
      if v.logLevel.None? then Some(DefaultLogLevel) else v.logLevel)
  }

  /** Defaulting twice is defaulting once, and a record with both fields
      present is left alone. */
  lemma DefaultedIdempotent(v: SettingsValue)
    ensures Defaulted(Defaulted(v)) == Defaulted(v)
    ensures v.runOnStartup.Some? && v.logLevel.Some? ==> Defaulted(v) == v
  {
  }

  /** A SettingsJSON record, mutated in place by fill_default_settings. */
  class Settings {
    var runOnStartup: Option<bool>
    var logLevel: Option<string>

    function Value(): SettingsValue
      reads this
    {
      SettingsValue(runOnStartup, logLevel)
    }

    constructor (v: SettingsValue)
      ensures Value() == v
    {
      runOnStartup := v.runOnStartup;
      logLevel := v.logLevel;
    }

    /** fill_default_settings: each field that is None receives its default. */
    method FillDefaultSettings()
      modifies this
      ensures Value() == Defaulted(old(Value()))
    {
      if runOnStartup.None? {
        runOnStartup := Some(DefaultRunOnStartup);
      }
      if logLevel.None? {
        logLevel := Some(DefaultLogLevel);
      }
    }
  }

  /** The record get_settings yields for a given file. */
  function LoadedSettings(file: SettingsFile): (v: SettingsValue)
    ensures v.runOnStartup.Some? && v.logLevel.Some?
    ensures !file.Parsed? ==> v == SettingsValue(Some(true), Some("low"))
    ensures file.Parsed? && file.value.runOnStartup.Some? ==> v.runOnStartup == file.value.runOnStartup
    ensures file.Parsed? && file.value.logLevel.Some? ==> v.logLevel == file.value.logLevel
    ensures file.Parsed? && file.value.runOnStartup.None? ==> v.runOnStartup == Some(true)
    ensures file.Parsed? && file.value.logLevel.None? ==> v.logLevel == Some("low")
    ensures file.Parsed? ==> v == Defaulted(file.value)
  {
    Defaulted(if file.Parsed? then file.value else SettingsValue(None, None))
  }

  /** get_settings: the file's record with missing fields defaulted, or the
      all-default record when the file is missing or does not decode. */
  method GetSettings(file: SettingsFile) returns (settings: Settings)
    ensures fresh(settings)
    ensures settings.Value() == LoadedSettings(file)
  {
    if file.Parsed? {
      settings := new Settings(file.value);
    } else {
      settings := new Settings(SettingsValue(None, None));
      settings.FillDefaultSettings();
    }
    settings.FillDefaultSettings();
  }

  /** set_settings: writes a defaulted copy of `settings` and reports whether
      the write succeeded; `settings` itself is not modified (no modifies clause). */
  method SetSettings(settings: Settings, file: SettingsFile, writeOk: bool) returns (ok: bool, file': SettingsFile)
    ensures ok == writeOk
    ensures ok ==> file' == Parsed(Defaulted(settings.Value()))
    ensures !ok ==> file' == file
  {
    var toSave := new Settings(settings.Value());
    toSave.FillDefaultSettings();
    ok := writeOk;
    file' := Written(file, toSave.Value(), writeOk);
  }

  /** The record a successful set_settings leaves in the file is exactly
      what get_settings reads back. */
  lemma {:induction false} SetThenGetSettings(file: SettingsFile, v: SettingsValue)
    ensures LoadedSettings(Written(file, Defaulted(v), true)) == Defaulted(v)
  {
    DefaultedIdempotent(v);
  }
}
