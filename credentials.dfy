/**
 * Where the client's bearer token comes from (`Client.__init__` and the
 * `_read_from_config` property): a token passed to the constructor is kept
 * as it is; otherwise the configuration file is read and its ACCESS_TOKEN
 * entry, if any, is the token. The file system and the environment are
 * parameters: `files` maps each existing path to the lines of that file.
 */
module Credentials {
  import opened Wrappers
  import opened Config

  /** The token the constructor settles on, given the dictionary read from the
      configuration file (`None` when there was no file to read). */
  function ChooseToken(explicit: Option<string>, config: Option<map<string, string>>): (t: Option<string>)
    ensures explicit.Some? ==> t == explicit
    ensures explicit.None? ==> (t.Some? <==> config.Some? && AccessTokenKey in config.value)
    ensures explicit.None? && t.Some? ==> t.value == config.value[AccessTokenKey]
  {
    if explicit.Some? then explicit
    else if config.Some? && AccessTokenKey in config.value then Some(config.value[AccessTokenKey])
    else None
  }

  /** The file `_read_from_config` opens: the value of the ACCESS_TOKEN
      environment variable, which the code reads as a path, or else the
      default location (already expanded from `~/.web3_storage_token`). */
  function ConfigPath(env: Option<string>, defaultPath: string): (path: string)
    ensures env.Some? ==> path == env.value
    ensures env.None? ==> path == defaultPath
  {
    if env.Some? then env.value else defaultPath
  }

  /** The dictionary read from the configuration file, or `None` when no file
      exists at its path. */
  function ConfigFile(env: Option<string>, defaultPath: string, files: map<string, seq<string>>): (config: Option<map<string, string>>)
    ensures config.Some? <==> ConfigPath(env, defaultPath) in files
    ensures config.Some? ==> config.value == ConfigOf(files[ConfigPath(env, defaultPath)])
    ensures config.Some? ==> forall k :: k in config.value ==> OccursIn(k, AccessTokenKey)
  {
    var path := ConfigPath(env, defaultPath);
    if path in files then
      ConfigOfKeysOccur(files[path]);
      Some(ConfigOf(files[path]))
    else None
  }

  /** The token a new client holds. */
  function ResolveToken(explicit: Option<string>, env: Option<string>, defaultPath: string,
                        files: map<string, seq<string>>): (t: Option<string>)
    ensures explicit.Some? ==> t == explicit
  {
    ChooseToken(explicit, ConfigFile(env, defaultPath, files))
  }

  // ---------------------------------------------------------------------
  // Properties
  // ---------------------------------------------------------------------

  /** With no token passed in, the client's token is `v` exactly when the
      configuration file exists and its last line that stores the key
      ACCESS_TOKEN stores `v`. */
  lemma TokenFromFile(env: Option<string>, defaultPath: string, files: map<string, seq<string>>, v: string)
    ensures ResolveToken(None, env, defaultPath, files) == Some(v) <==>
      var path := ConfigPath(env, defaultPath);
      path in files && exists i :: LastStore(files[path], AccessTokenKey, v, i)
  {
    var path := ConfigPath(env, defaultPath);
    if path in files {
      ConfigOfLastWins(files[path], AccessTokenKey, v);
    }
  }

  /** A set ACCESS_TOKEN environment variable is read as the path of the
      configuration file: the default location no longer matters, and the
      token is what a file at that path gives. */
  lemma EnvironmentVariableIsPath(path: string, defaultPath: string, otherDefault: string,
                                  files: map<string, seq<string>>)
    ensures ResolveToken(None, Some(path), defaultPath, files) == ResolveToken(None, None, path, files)
    ensures ResolveToken(None, Some(path), defaultPath, files) == ResolveToken(None, Some(path), otherDefault, files)
  {
  }

  /** With no token passed in, the client has no token when there is no
      configuration file, or when no line of it stores ACCESS_TOKEN. */
  lemma NoTokenWithoutEntry(env: Option<string>, defaultPath: string, files: map<string, seq<string>>)
    requires var path := ConfigPath(env, defaultPath);
      path in files ==> forall i :: !StoresKey(files[path], i, AccessTokenKey)
    ensures ResolveToken(None, env, defaultPath, files) == None
  {
    var path := ConfigPath(env, defaultPath);
    if path in files {
      ConfigOfDomain(files[path], AccessTokenKey);
    }
  }

  /** Only lines whose key is exactly ACCESS_TOKEN matter to the token:
      appending any other line to the configuration file leaves it alone. */
  lemma OtherKeysIgnored(lines: seq<string>, line: string)
    requires !Stores(ParseLine(line), AccessTokenKey)
    ensures ChooseToken(None, Some(ConfigOf(lines + [line]))) == ChooseToken(None, Some(ConfigOf(lines)))
  {
    ConfigOfSnoc(lines, line);
  }
}
