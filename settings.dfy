/**
 * The run's configuration. The program keeps it in static fields that the
 * loader sets once and every later step only reads; here it is an object whose
 * fields are constants fixed by its constructor.
 */
module Settings {
  import opened Text

  /** The extension list: the setting with `;` and blanks trimmed from both ends, split at `;`. */
  function ExtensionList(setting: string): (exts: seq<string>)
    ensures |exts| >= 1
    ensures forall i :: 0 <= i < |exts| ==> ';' !in exts[i]
    ensures Join(exts, ';') == TrimSet(setting, {';', ' '})
  {
    JoinSplit(TrimSet(setting, {';', ' '}), ';');
    Split(TrimSet(setting, {';', ' '}), ';')
  }

  class Config {
    /** The TV root folder, as configured. */
    const tvRoot: string
    /** The naming template for season/episode shows. */
    const tvTemplate: string
    /** The naming template for daily shows. */
    const tvDailyTemplate: string
    /** Whether bad characters are replaced (true) or removed (false). */
    const sabReplaceChars: bool
    /** The `Show=N;` list of ignored seasons. */
    const ignoreSeasons: string
    /** The video extensions, each tried in turn for the on-disk probe. */
    const videoExt: seq<string>
    /** The names of the folders under the TV root: the shows being watched. */
    const wantedShowNames: seq<string>
    /** The folder that holds the archived `.nzb.gz` files. */
    const nzbDir: string

    constructor (tvRoot: string, tvTemplate: string, tvDailyTemplate: string, sabReplaceChars: bool,
                 ignoreSeasons: string, videoExtSetting: string, folderNames: seq<string>, nzbDir: string)
      ensures this.tvRoot == tvRoot && this.tvTemplate == tvTemplate
      ensures this.tvDailyTemplate == tvDailyTemplate && this.sabReplaceChars == sabReplaceChars
      ensures this.ignoreSeasons == ignoreSeasons && this.nzbDir == nzbDir
      ensures this.videoExt == ExtensionList(videoExtSetting)
      ensures this.wantedShowNames == folderNames
    {
      this.tvRoot := tvRoot;
      this.tvTemplate := tvTemplate;
      this.tvDailyTemplate := tvDailyTemplate;
      this.sabReplaceChars := sabReplaceChars;
      this.ignoreSeasons := ignoreSeasons;
      this.videoExt := ExtensionList(videoExtSetting);
      this.wantedShowNames := folderNames;
      this.nzbDir := nzbDir;
    }
  }
}
