/** src/config.ts: the launcher's own key store, `~/.claude-code-infinite/config.json`,
    holding one API key for production and one for local mode.

    The file is an abstract state: missing, present but unreadable or unparsable, or the
    record it was last saved with (`JSON.stringify` followed by `JSON.parse` gives the same
    record back). */
module Configuration {
  import opened Wrappers

  datatype Config = Config(polychatApiKey: Option<string>, localPolychatApiKey: Option<string>)

  const EMPTY_CONFIG := Config(None, None)

  datatype ConfigFile = Missing | Unparsable | Saved(config: Config)

  /** loadConfig: the saved record, or `{}` when the file is missing or does not parse. */
  function LoadConfig(file: ConfigFile): (c: Config)
    ensures file.Missing? ==> c == EMPTY_CONFIG
    ensures file.Unparsable? ==> c == EMPTY_CONFIG
    ensures file.Saved? ==> c == file.config
  {
    match file
    case Saved(config) => config
    case _ => EMPTY_CONFIG
  }

  /** The file after setPolychatApiKey: the loaded record with one field replaced, written
      back whole. */
  function WithPolychatApiKey(file: ConfigFile, key: string): ConfigFile
  {
    Saved(LoadConfig(file).(polychatApiKey := Some(key)))
  }

  /** The file after setLocalPolychatApiKey. */
  function WithLocalPolychatApiKey(file: ConfigFile, key: string): ConfigFile
  {
    Saved(LoadConfig(file).(localPolychatApiKey := Some(key)))
  }

  /** saveConfig rewrites the whole file, so loading gives back exactly what was saved. */
  lemma LoadAfterSave(c: Config)
    ensures LoadConfig(Saved(c)) == c
  {
  }

  /** Setting a key makes it readable and leaves the other namespace as it was. */
  lemma SetPolychatApiKeyEffect(file: ConfigFile, key: string)
    ensures LoadConfig(WithPolychatApiKey(file, key)).polychatApiKey == Some(key)
    ensures LoadConfig(WithPolychatApiKey(file, key)).localPolychatApiKey == LoadConfig(file).localPolychatApiKey
  {
  }

  lemma SetLocalPolychatApiKeyEffect(file: ConfigFile, key: string)
    ensures LoadConfig(WithLocalPolychatApiKey(file, key)).localPolychatApiKey == Some(key)
    ensures LoadConfig(WithLocalPolychatApiKey(file, key)).polychatApiKey == LoadConfig(file).polychatApiKey
  {
  }

  /** The two namespaces are independent: setting both gives the same file in either order. */
  lemma SettersCommute(file: ConfigFile, key: string, localKey: string)
    ensures WithLocalPolychatApiKey(WithPolychatApiKey(file, key), localKey)
         == WithPolychatApiKey(WithLocalPolychatApiKey(file, localKey), key)
  {
  }

  /** A later set of the same namespace overwrites an earlier one. */
  lemma LastSetWins(file: ConfigFile, first: string, second: string)
    ensures WithPolychatApiKey(WithPolychatApiKey(file, first), second) == WithPolychatApiKey(file, second)
    ensures WithLocalPolychatApiKey(WithLocalPolychatApiKey(file, first), second) == WithLocalPolychatApiKey(file, second)
  {
  }

  /** The store on disk: the config file and whether its directory exists yet. */
  class ConfigStore {
    var file: ConfigFile
    var dirExists: bool

    constructor (file: ConfigFile, dirExists: bool)
      ensures this.file == file && this.dirExists == dirExists
    {
      this.file := file;
      this.dirExists := dirExists;
    }

    /** saveConfig: create the directory if needed, then overwrite the file. */
    method SaveConfig(config: Config)
      modifies this
      ensures file == Saved(config) && dirExists
    {
      if !dirExists {
        dirExists := true;
      }
      file := Saved(config);
    }

    /** getPolychatApiKey: the production key, absent when the file is missing or unparsable. */
    function GetPolychatApiKey(): (key: Option<string>)
      reads this
      ensures file.Saved? ==> key == file.config.polychatApiKey
      ensures !file.Saved? ==> key.None?
    {
      LoadConfig(file).polychatApiKey
    }

    /** getLocalPolychatApiKey: the local-mode key, absent when the file is missing or unparsable. */
    function GetLocalPolychatApiKey(): (key: Option<string>)
      reads this
      ensures file.Saved? ==> key == file.config.localPolychatApiKey
      ensures !file.Saved? ==> key.None?
    {
      LoadConfig(file).localPolychatApiKey
    }

    /** setPolychatApiKey: read, replace one field, write back whole. */
    method SetPolychatApiKey(key: string)
      modifies this
      ensures file == WithPolychatApiKey(old(file), key) && dirExists
      ensures GetPolychatApiKey() == Some(key)
      ensures GetLocalPolychatApiKey() == old(GetLocalPolychatApiKey())
    {
      var config := LoadConfig(file);
      config := config.(polychatApiKey := Some(key));
      SaveConfig(config);
    }

    /** setLocalPolychatApiKey: read, replace one field, write back whole. */
    method SetLocalPolychatApiKey(key: string)
      modifies this
      ensures file == WithLocalPolychatApiKey(old(file), key) && dirExists
      ensures GetLocalPolychatApiKey() == Some(key)
      ensures GetPolychatApiKey() == old(GetPolychatApiKey())
    {
      var config := LoadConfig(file);
      config := config.(localPolychatApiKey := Some(key));
      SaveConfig(config);
    }
  }
}
