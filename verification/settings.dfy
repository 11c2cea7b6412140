/** The plugin's settings record and its defaults (src/api/index.ts, src/main.ts). */
module Settings {

  /** The book-name vocabulary the external reference parser uses. */
  datatype Language = En | Sp

  datatype PluginSettings = PluginSettings(
    bibleLanguage: Language,
    defaultVersion: string,
    encodeSpacesToPlus: bool,
    linkTemplate: string,
    validateBookName: bool)

  /** The values used for every setting the user has not saved. */
  const DefaultSettings := PluginSettings(En, "", true, "", false)
}
