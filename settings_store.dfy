/** The settings store: the current preferences, changed one key at a time
    or reset to the defaults, and written to persistent storage after every
    change. */
module SettingsStore {
  import opened SettingsTypes

  /** The keys of the settings record. */
  datatype SettingKey =
    | CompactMode | AnimationsEnabled | ShowTimestamps
    | DefaultModel | AutoTitle | AutoScroll | StreamResponses
    | Temperature | TopP | MaxTokens | SystemPrompt

  /** A value of one of the record's field types. */
  datatype SettingValue = Flag(flag: bool) | Text(text: string) | Number(number: real)

  /** `Settings[K]`: the value has the type of the key's field. */
  predicate HasType(k: SettingKey, v: SettingValue) {
    match k
    case CompactMode | AnimationsEnabled | ShowTimestamps
       | AutoTitle | AutoScroll | StreamResponses => v.Flag?
    case DefaultModel | SystemPrompt => v.Text?
    case Temperature | TopP | MaxTokens => v.Number?
  }

  /** `settings[key]`. */
  function Get(s: Settings, k: SettingKey): (r: SettingValue)
    ensures HasType(k, r)
  {
    match k
    case CompactMode => Flag(s.compactMode)
    case AnimationsEnabled => Flag(s.animationsEnabled)
    case ShowTimestamps => Flag(s.showTimestamps)
    case DefaultModel => Text(s.defaultModel)
    case AutoTitle => Flag(s.autoTitle)
    case AutoScroll => Flag(s.autoScroll)
    case StreamResponses => Flag(s.streamResponses)
    case Temperature => Number(s.temperature)
    case TopP => Number(s.topP)
    case MaxTokens => Number(s.maxTokens)
    case SystemPrompt => Text(s.systemPrompt)
  }

  /** `{ ...settings, [key]: value }`: the key holds the value, and every
      other key holds what it held. */
  function With(s: Settings, k: SettingKey, v: SettingValue): (r: Settings)
    requires HasType(k, v)
    ensures Get(r, k) == v
  {
    Settings(
      compactMode := if k == CompactMode then v.flag else s.compactMode,
      animationsEnabled := if k == AnimationsEnabled then v.flag else s.animationsEnabled,
      showTimestamps := if k == ShowTimestamps then v.flag else s.showTimestamps,
      defaultModel := if k == DefaultModel then v.text else s.defaultModel,
      autoTitle := if k == AutoTitle then v.flag else s.autoTitle,
      autoScroll := if k == AutoScroll then v.flag else s.autoScroll,
      streamResponses := if k == StreamResponses then v.flag else s.streamResponses,
      temperature := if k == Temperature then v.number else s.temperature,
      topP := if k == TopP then v.number else s.topP,
      maxTokens := if k == MaxTokens then v.number else s.maxTokens,
      systemPrompt := if k == SystemPrompt then v.text else s.systemPrompt)
  }

  /** An update changes no other key. */
  lemma WithKeepsOthers(s: Settings, k: SettingKey, v: SettingValue, other: SettingKey)
    requires HasType(k, v) && other != k
    ensures Get(With(s, k, v), other) == Get(s, other)
  {
  }

  /** Two settings records that agree on every key are the same record. */
  lemma SameOnEveryKey(a: Settings, b: Settings)
    requires forall k :: Get(a, k) == Get(b, k)
    ensures a == b
  {
    assert Get(a, CompactMode) == Get(b, CompactMode);
    assert Get(a, AnimationsEnabled) == Get(b, AnimationsEnabled);
    assert Get(a, ShowTimestamps) == Get(b, ShowTimestamps);
    assert Get(a, DefaultModel) == Get(b, DefaultModel);
    assert Get(a, AutoTitle) == Get(b, AutoTitle);
    assert Get(a, AutoScroll) == Get(b, AutoScroll);
    assert Get(a, StreamResponses) == Get(b, StreamResponses);
    assert Get(a, Temperature) == Get(b, Temperature);
    assert Get(a, TopP) == Get(b, TopP);
    assert Get(a, MaxTokens) == Get(b, MaxTokens);
    assert Get(a, SystemPrompt) == Get(b, SystemPrompt);
  }

  /** Writing back the value a key already holds changes nothing. */
  lemma WithSameValue(s: Settings, k: SettingKey)
    ensures With(s, k, Get(s, k)) == s
  {
    SameOnEveryKey(With(s, k, Get(s, k)), s);
  }

  /** Of two updates of the same key, the second wins. */
  lemma WithTwice(s: Settings, k: SettingKey, v: SettingValue, w: SettingValue)
    requires HasType(k, v) && HasType(k, w)
    ensures With(With(s, k, v), k, w) == With(s, k, w)
  {
    SameOnEveryKey(With(With(s, k, v), k, w), With(s, k, w));
  }

  /** Updates of different keys can be made in either order. */
  lemma WithCommutes(s: Settings, k1: SettingKey, v1: SettingValue, k2: SettingKey, v2: SettingValue)
    requires k1 != k2 && HasType(k1, v1) && HasType(k2, v2)
    ensures With(With(s, k1, v1), k2, v2) == With(With(s, k2, v2), k1, v1)
  {
    SameOnEveryKey(With(With(s, k1, v1), k2, v2), With(With(s, k2, v2), k1, v1));
  }

  class SettingsState {
    var settings: Settings
    /** Every record handed to `saveSettings`, oldest first. */
    var saved: seq<Settings>

    /** The store starts from what `loadSettings` returned. */
    constructor(loaded: Settings)
      ensures settings == loaded && saved == []
    {
      settings := loaded;
      saved := [];
    }

    /** `updateSetting(key, value)`: the key takes the value, every other
        key keeps its value, and exactly the new record is saved. */
    method UpdateSetting(k: SettingKey, v: SettingValue)
      requires HasType(k, v)
      modifies this
      ensures Get(settings, k) == v
      ensures forall k' :: k' != k ==> Get(settings, k') == Get(old(settings), k')
      ensures saved == old(saved) + [settings]
    {
      var next := With(settings, k, v);
      settings := next;
      saved := saved + [next];
    }

    /** `resetSettings`: the defaults, saved; resetting again leaves the
        same settings. */
    method ResetSettings()
      modifies this
      ensures settings == DefaultSettings
      ensures saved == old(saved) + [DefaultSettings]
    {
      var next := DefaultSettings;
      settings := next;
      saved := saved + [next];
    }
  }
}
