/** The user preferences record and its defaults. Numbers are JavaScript
    numbers, kept here as opaque `real` values: nothing in the core does
    arithmetic on them. */
module SettingsTypes {

  datatype Settings = Settings(
    // Appearance
    compactMode: bool,
    animationsEnabled: bool,
    showTimestamps: bool,
    // Chat behaviour
    defaultModel: string,
    autoTitle: bool,
    autoScroll: bool,
    streamResponses: bool,
    // Inference
    temperature: real,
    topP: real,
    maxTokens: real,
    systemPrompt: string)

  /** The settings a fresh installation starts from. */
  const DefaultSettings: Settings := Settings(
    compactMode := false,
    animationsEnabled := true,
    showTimestamps := true,
    defaultModel := "",
    autoTitle := true,
    autoScroll := true,
    streamResponses := true,
    temperature := 0.7,
    topP := 0.9,
    maxTokens := 2048.0,
    systemPrompt := "")
}
