/** The API key and model choice: read from browser storage at start-up,
    written back by the settings dialog's Save button. */
module Settings {
  import opened Wrappers
  import opened Strings

  /** The model used when none was stored. */
  const DefaultModel: string := "gemini-1.5-flash"

  datatype Settings = Settings(apiKey: string, model: string)

  /** The two stored values; `None` where storage has no entry. */
  datatype Storage = Storage(storedKey: Option<string>, storedModel: Option<string>)

  /** `stored || fallback`: a missing or empty stored string gives way to the
      fallback. */
  function OrElse(stored: Option<string>, fallback: string): (r: string)
    ensures stored.Some? && stored.value != "" ==> r == stored.value
    ensures stored.None? || stored.value == "" ==> r == fallback
  {
    match stored
    case Some(v) => if v != "" then v else fallback
    case None => fallback
  }

  /** Start-up: the stored key or the empty string, the stored model or the
      default model. */
  function Load(storage: Storage): (r: Settings)
    ensures r.model != ""
    ensures storage.storedKey.Some? ==> r.apiKey == storage.storedKey.value
    ensures storage.storedKey.None? ==> r.apiKey == ""
    ensures storage.storedModel.Some? && storage.storedModel.value != "" ==> r.model == storage.storedModel.value
    ensures storage.storedModel.None? || storage.storedModel.value == "" ==> r.model == DefaultModel
  {
    Settings(OrElse(storage.storedKey, ""), OrElse(storage.storedModel, DefaultModel))
  }

  datatype SaveResult = SaveResult(settings: Settings, storage: Storage, saved: bool)

  /** The Save button: the typed key is trimmed; a blank key is refused and
      nothing changes, otherwise the trimmed key and the chosen model become
      the settings and are written to storage. */
  function Save(current: Settings, storage: Storage, typedKey: string, model: string): (r: SaveResult)
    ensures r.saved <==> Trim(typedKey) != ""
    ensures !r.saved ==> r.settings == current && r.storage == storage
    ensures r.saved ==> r.settings == Settings(Trim(typedKey), model)
    ensures r.saved ==> r.storage == Storage(Some(r.settings.apiKey), Some(model))
    ensures r.saved ==> !IsWhitespace(r.settings.apiKey[0]) && !IsWhitespace(r.settings.apiKey[|r.settings.apiKey| - 1])
  {
    var key := Trim(typedKey);
    if key != "" then SaveResult(Settings(key, model), Storage(Some(key), Some(model)), true)
    else SaveResult(current, storage, false)
  }

  /** What a successful save writes is what the next start-up reads back,
      provided a model was chosen. */
  lemma SaveThenLoad(current: Settings, storage: Storage, typedKey: string, model: string)
    requires model != ""
    ensures var r := Save(current, storage, typedKey, model);
            r.saved ==> Load(r.storage) == r.settings
  {
  }
}
