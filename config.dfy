/**
  Configuration resolution done when a state store manager is built: the
  protocol alias table, substitution of the placeholder `fs://` scheme, the
  filtering of the flat `"<prefix>.<name>"` option mapping down to the active
  backend, and the one backend-specific preprocessing step (SFTP private keys).
*/
module Config {
  import opened Wrappers
  import opened Text

  /** Logical protocol names whose concrete backend scheme differs. */
  const ProtocolMapping: map<string, string> := map["azure" := "abfs"]

  /** The scheme the `fs://` placeholder is replaced by and option prefixes are compared with. */
  const Placeholder: string := "fs://"

  datatype ConfigError =
    | MalformedOptionKey(key: string)   // the key does not split into exactly two parts at "."
    | InvalidKeyFormat                  // no supported private-key format reads the SFTP key

  /** Maps a logical protocol name to its concrete scheme; unknown names pass through. */
  function ResolveProtocol(protocol: string): (r: string)
    ensures r !in ProtocolMapping
    ensures protocol in ProtocolMapping ==> r == ProtocolMapping[protocol]
    ensures protocol !in ProtocolMapping ==> r == protocol
  {
    if protocol in ProtocolMapping then ProtocolMapping[protocol] else protocol
  }

  /** The base location with every placeholder scheme replaced by the resolved one. */
  function ResolveUri(uri: string, protocol: string): string
  {
    Replace(uri, Placeholder, ResolveProtocol(protocol) + "://")
  }

  /** A URI that starts with the placeholder and has none elsewhere gets the resolved scheme in its place. */
  lemma ResolveUriLeadingPlaceholder(rest: string, protocol: string)
    requires !Occurs(rest, Placeholder)
    ensures ResolveUri(Placeholder + rest, protocol) == ResolveProtocol(protocol) + "://" + rest
  {
    var s := Placeholder + rest;
    assert s[..|Placeholder|] == Placeholder && s[|Placeholder|..] == rest;
    ReplaceWithoutOccurrence(rest, Placeholder, ResolveProtocol(protocol) + "://");
  }

  /** A URI without the placeholder is kept as given, whatever the protocol. */
  lemma ResolveUriWithoutPlaceholder(uri: string, protocol: string)
    requires !Occurs(uri, Placeholder)
    ensures ResolveUri(uri, protocol) == uri
  {
    ReplaceWithoutOccurrence(uri, Placeholder, ResolveProtocol(protocol) + "://");
  }

  /**
    The option name an input key contributes under the resolved protocol `active`:
    Some(name) for a key `prefix.name` whose alias-resolved prefix is `active`,
    None for a two-part key of another backend. Only meaningful for keys that
    split into two parts.
  */
  function NameFor(key: string, active: string): Option<string>
  {
    var parts := Split(key, ".");
    if |parts| == 2 && ResolveProtocol(parts[0]) == active then Some(parts[1]) else None
  }

  predicate WellFormedKey(key: string)
  {
    |Split(key, ".")| == 2
  }

  /**
    The options the construction loop builds from the entries of the input
    mapping, in their iteration order: a malformed key stops it with an error,
    a key of another backend is skipped, and a key of the active backend
    (re)binds its name.
  */
  function Filtered(entries: seq<(string, string)>, active: string): Result<map<string, string>, ConfigError>
    decreases |entries|
  {
    if entries == [] then Ok(map[])
    else
      match Filtered(entries[..|entries| - 1], active)
      case Err(e) => Err(e)
      case Ok(m) =>
        var (key, value) := entries[|entries| - 1];
        if !WellFormedKey(key) then Err(MalformedOptionKey(key))
        else if NameFor(key, active).None? then Ok(m)
        else Ok(m[NameFor(key, active).value := value])
  }

  /**
    The filtering loop of the constructor: it fails on the first malformed key
    and otherwise keeps exactly the options of the active backend.
  */
  method FilterOptions(entries: seq<(string, string)>, active: string) returns (r: Result<map<string, string>, ConfigError>)
    ensures r == Filtered(entries, active)
  {
    var opts: map<string, string> := map[];
    for i := 0 to |entries|
      invariant Filtered(entries[..i], active) == Ok(opts)
    {
      assert entries[..i + 1][..i] == entries[..i];
      var (key, value) := entries[i];
      var parts := Split(key, ".");
      if |parts| != 2 {
        FilteredErrorPersists(entries, active, i + 1);
        return Err(MalformedOptionKey(key));
      }
      if ResolveProtocol(parts[0]) != active {
        continue;
      }
      opts := opts[parts[1] := value];
    }
    assert entries[..|entries|] == entries;
    r := Ok(opts);
  }

  /** Filtering fails exactly when some key is malformed, and then names the first such key. */
  lemma {:induction false} FilteredFailsOnFirstMalformedKey(entries: seq<(string, string)>, active: string)
    ensures Filtered(entries, active).Err? <==> exists i :: 0 <= i < |entries| && !WellFormedKey(entries[i].0)
    ensures Filtered(entries, active).Err? ==>
      exists i :: 0 <= i < |entries| && Filtered(entries, active).error == MalformedOptionKey(entries[i].0)
        && !WellFormedKey(entries[i].0) && forall j :: 0 <= j < i ==> WellFormedKey(entries[j].0)
    decreases |entries|
  {
    if entries != [] {
      var init := entries[..|entries| - 1];
      FilteredFailsOnFirstMalformedKey(init, active);
      assert forall i :: 0 <= i < |init| ==> init[i] == entries[i];
    }
  }

  /** Once the loop has met a malformed key, later entries do not matter. */
  lemma {:induction false} FilteredErrorPersists(entries: seq<(string, string)>, active: string, i: nat)
    requires i <= |entries|
    requires Filtered(entries[..i], active).Err?
    ensures Filtered(entries, active) == Filtered(entries[..i], active)
    decreases |entries| - i
  {
    if i < |entries| {
      var n := |entries| - 1;
      assert entries[..n][..i] == entries[..i];
      FilteredErrorPersists(entries[..n], active, i);
    } else {
      assert entries[..i] == entries;
    }
  }

  /** A successful filtering binds exactly the names contributed by keys of the active backend. */
  lemma {:induction false} FilteredKeys(entries: seq<(string, string)>, active: string)
    requires Filtered(entries, active).Ok?
    ensures forall name :: name in Filtered(entries, active).value <==>
      exists i :: 0 <= i < |entries| && NameFor(entries[i].0, active) == Some(name)
    decreases |entries|
  {
    if entries != [] {
      var n := |entries| - 1;
      var init := entries[..n];
      FilteredKeys(init, active);
      var m := Filtered(entries, active).value;
      var m0 := Filtered(init, active).value;
      forall name
        ensures name in m <==> exists i :: 0 <= i < |entries| && NameFor(entries[i].0, active) == Some(name)
      {
        if name in m0 {
          var i :| 0 <= i < |init| && NameFor(init[i].0, active) == Some(name);
          assert init[i] == entries[i];
        }
        if exists i :: 0 <= i < |entries| && NameFor(entries[i].0, active) == Some(name) {
          var i :| 0 <= i < |entries| && NameFor(entries[i].0, active) == Some(name);
          if i < n {
            assert init[i] == entries[i];
          }
        }
      }
    }
  }

  /** Each bound name holds the value of the last entry that contributes it. */
  lemma {:induction false} FilteredValue(entries: seq<(string, string)>, active: string, i: nat, name: string)
    requires Filtered(entries, active).Ok?
    requires i < |entries| && NameFor(entries[i].0, active) == Some(name)
    requires forall j :: i < j < |entries| ==> NameFor(entries[j].0, active) != Some(name)
    ensures name in Filtered(entries, active).value
    ensures Filtered(entries, active).value[name] == entries[i].1
    decreases |entries|
  {
    var n := |entries| - 1;
    var init := entries[..n];
    if i < n {
      assert init[i] == entries[i];
      FilteredValue(init, active, i, name);
    }
  }

  /**
    A key `prefix.name` with dot-free halves is well formed, and contributes
    `name` exactly when its alias-resolved prefix is the active protocol.
  */
  lemma NameForKey(prefix: string, name: string, active: string)
    requires '.' !in prefix && '.' !in name
    ensures WellFormedKey(prefix + "." + name)
    ensures NameFor(prefix + "." + name, active) == if ResolveProtocol(prefix) == active then Some(name) else None
  {
    SplitOnlyDot(prefix, name);
  }

  /** An alias and its concrete scheme select the same options: `azure.x` and `abfs.x` both count for Azure. */
  lemma AliasedPrefixesAgree(name: string)
    requires '.' !in name
    ensures NameFor("azure" + "." + name, ResolveProtocol("azure")) == Some(name)
    ensures NameFor("abfs" + "." + name, ResolveProtocol("azure")) == Some(name)
  {
    NameForKey("azure", name, "abfs");
    NameForKey("abfs", name, "abfs");
  }

  lemma SplitOnlyDot(prefix: string, name: string)
    requires '.' !in prefix && '.' !in name
    ensures Split(prefix + "." + name, ".") == [prefix, name]
  {
    var key := prefix + "." + name;
    CountCharAbsent(prefix, '.');
    CountCharAbsent(name, '.');
    CountCharAppend(prefix + ".", name, '.');
    CountCharAppend(prefix, ".", '.');
    TwoPartSplit(key);
    var parts := Split(key, ".");
    DotPosition(prefix, name, parts[0], parts[1]);
  }

  lemma {:induction false} CountCharAbsent(s: string, c: char)
    requires c !in s
    ensures CountChar(s, c) == 0
    decreases |s|
  {
    if s != [] {
      assert s[0] != c;
      assert forall k :: 0 <= k < |s[1..]| ==> s[1..][k] == s[k + 1];
      CountCharAbsent(s[1..], c);
    }
  }

  /** Two ways of writing a string as `a.b` with dot-free halves coincide. */
  lemma DotPosition(a: string, b: string, a': string, b': string)
    requires '.' !in a && '.' !in b && '.' !in a' && '.' !in b'
    requires a + "." + b == a' + "." + b'
    ensures a == a' && b == b'
  {
    var s := a + "." + b;
    assert s[|a|] == '.';
    assert s[|a'|] == '.';
    assert |a| == |a'|;
    assert a == s[..|a|] && a' == s[..|a'|];
    assert b == s[|a| + 1..] && b' == s[|a'| + 1..];
  }

  /** Supported SFTP private-key formats, in the order they are tried. */
  datatype KeyKind = Ed25519 | Rsa | Ecdsa

  const KeyOrder: seq<KeyKind> := [Ed25519, Rsa, Ecdsa]

  /** A resolved option value: the text given, or a private key read from PEM text. */
  datatype OptionValue = Plain(text: string) | PrivateKey(kind: KeyKind, pem: string)

  /** Whether a key reader for a format accepts the PEM text (with an optional passphrase). */
  type KeyReader = (KeyKind, string, Option<string>) -> bool

  /** The first of `kinds` whose reader accepts the key material. */
  function FirstReadable(kinds: seq<KeyKind>, pem: string, passphrase: Option<string>, reader: KeyReader): Option<KeyKind>
  {
    if kinds == [] then None
    else if reader(kinds[0], pem, passphrase) then Some(kinds[0])
    else FirstReadable(kinds[1..], pem, passphrase, reader)
  }

  /** FirstReadable picks the earliest accepting format, and fails only if none accepts. */
  lemma {:induction false} FirstReadableIsFirst(kinds: seq<KeyKind>, pem: string, passphrase: Option<string>, reader: KeyReader)
    ensures FirstReadable(kinds, pem, passphrase, reader).None? <==>
      forall i :: 0 <= i < |kinds| ==> !reader(kinds[i], pem, passphrase)
    ensures FirstReadable(kinds, pem, passphrase, reader).Some? ==>
      exists i :: 0 <= i < |kinds| && kinds[i] == FirstReadable(kinds, pem, passphrase, reader).value
        && reader(kinds[i], pem, passphrase) && forall j :: 0 <= j < i ==> !reader(kinds[j], pem, passphrase)
    decreases |kinds|
  {
    if kinds != [] && !reader(kinds[0], pem, passphrase) {
      FirstReadableIsFirst(kinds[1..], pem, passphrase, reader);
      var r := FirstReadable(kinds, pem, passphrase, reader);
      if r.Some? {
        var i :| 0 <= i < |kinds[1..]| && kinds[1..][i] == r.value
          && reader(kinds[1..][i], pem, passphrase) && forall j :: 0 <= j < i ==> !reader(kinds[1..][j], pem, passphrase);
        assert kinds[i + 1] == r.value;
        assert forall j :: 1 <= j < i + 1 ==> kinds[j] == kinds[1..][j - 1];
      } else {
        assert forall i :: 1 <= i < |kinds| ==> kinds[i] == kinds[1..][i - 1];
      }
    }
  }

  /** Trial-reads SFTP key material in the order Ed25519, RSA, ECDSA; the first format that reads wins. */
  method GuessKeyKind(pem: string, passphrase: Option<string>, reader: KeyReader) returns (r: Result<KeyKind, ConfigError>)
    ensures r.Ok? <==> exists i :: 0 <= i < |KeyOrder| && reader(KeyOrder[i], pem, passphrase)
    ensures r.Ok? ==> FirstReadable(KeyOrder, pem, passphrase, reader) == Some(r.value)
    ensures r.Err? ==> r.error == InvalidKeyFormat
  {
    FirstReadableIsFirst(KeyOrder, pem, passphrase, reader);
    for i := 0 to |KeyOrder|
      invariant forall j :: 0 <= j < i ==> !reader(KeyOrder[j], pem, passphrase)
      invariant FirstReadable(KeyOrder, pem, passphrase, reader) == FirstReadable(KeyOrder[i..], pem, passphrase, reader)
    {
      assert KeyOrder[i..][1..] == KeyOrder[i + 1..];
      if reader(KeyOrder[i], pem, passphrase) {
        return Ok(KeyOrder[i]);
      }
    }
    r := Err(InvalidKeyFormat);
  }

  /** Every filtered option as it is handed on before preprocessing. */
  function AsPlain(opts: map<string, string>): (r: map<string, OptionValue>)
    ensures r.Keys == opts.Keys
    ensures forall k :: k in opts ==> r[k] == Plain(opts[k])
  {
    map k | k in opts :: Plain(opts[k])
  }

  /** True iff preprocessing must convert an SFTP private key: the option is present and non-empty. */
  predicate HasSftpKey(active: string, opts: map<string, string>)
  {
    active == "sftp" && "pkey" in opts && opts["pkey"] != ""
  }

  function Passphrase(opts: map<string, string>): Option<string>
  {
    if "passphrase" in opts then Some(opts["passphrase"]) else None
  }

  /**
    The storage-option preprocessing: for SFTP a non-empty `pkey` becomes a key
    of the first format that reads it, or the whole resolution fails; every
    other option, and every option of other backends, passes unchanged.
  */
  method Preprocess(active: string, opts: map<string, string>, reader: KeyReader) returns (r: Result<map<string, OptionValue>, ConfigError>)
    ensures !HasSftpKey(active, opts) ==> r == Ok(AsPlain(opts))
    ensures HasSftpKey(active, opts) ==>
      var kind := FirstReadable(KeyOrder, opts["pkey"], Passphrase(opts), reader);
      r == if kind.Some? then Ok(AsPlain(opts)["pkey" := PrivateKey(kind.value, opts["pkey"])]) else Err(InvalidKeyFormat)
  {
    r := Ok(AsPlain(opts));
    if active == "sftp" && "pkey" in opts && opts["pkey"] != "" {
      var kind := GuessKeyKind(opts["pkey"], Passphrase(opts), reader);
      FirstReadableIsFirst(KeyOrder, opts["pkey"], Passphrase(opts), reader);
      match kind
      case Ok(k) => r := Ok(AsPlain(opts)["pkey" := PrivateKey(k, opts["pkey"])]);
      case Err(e) => r := Err(e);
    }
  }

  /** What a manager keeps from its construction parameters. */
  datatype Settings = Settings(
    fsUri: string,
    lockTimeoutSeconds: int,
    lockRetrySeconds: int,
    storageOptions: map<string, OptionValue>)

  /**
    The constructor's resolution: protocol alias, scheme substitution in the
    URI, option filtering and preprocessing, failing with the first
    configuration error met. The lock timeout defaults to 60 seconds, the
    retry interval to 1 second, and the options to none.
  */
  method ResolveSettings(uri: string, protocol: string, lockTimeoutSeconds: int := 60, lockRetrySeconds: int := 1,
                         storageOptions: seq<(string, string)> := [], nameonly reader: KeyReader)
    returns (r: Result<Settings, ConfigError>)
    ensures var active := ResolveProtocol(protocol);
      Filtered(storageOptions, active).Err? ==> r == Err(Filtered(storageOptions, active).error)
    ensures var active := ResolveProtocol(protocol);
      Filtered(storageOptions, active).Ok? && HasSftpKey(active, Filtered(storageOptions, active).value)
      && FirstReadable(KeyOrder, Filtered(storageOptions, active).value["pkey"],
                       Passphrase(Filtered(storageOptions, active).value), reader).None?
      ==> r == Err(InvalidKeyFormat)
    ensures r.Err? ==> var active := ResolveProtocol(protocol);
      || Filtered(storageOptions, active).Err?
      || (&& HasSftpKey(active, Filtered(storageOptions, active).value)
          && FirstReadable(KeyOrder, Filtered(storageOptions, active).value["pkey"],
                           Passphrase(Filtered(storageOptions, active).value), reader).None?)
    ensures r.Ok? ==> var active := ResolveProtocol(protocol);
      && Filtered(storageOptions, active).Ok?
      && r.value.fsUri == ResolveUri(uri, protocol)
      && r.value.lockTimeoutSeconds == lockTimeoutSeconds
      && r.value.lockRetrySeconds == lockRetrySeconds
      && r.value.storageOptions.Keys == Filtered(storageOptions, active).value.Keys
      && forall k :: k in r.value.storageOptions && k != "pkey" ==>
           r.value.storageOptions[k] == Plain(Filtered(storageOptions, active).value[k])
    ensures r.Ok? && "pkey" in r.value.storageOptions ==> var active := ResolveProtocol(protocol);
      var opts := Filtered(storageOptions, active).value;
      r.value.storageOptions["pkey"] == if HasSftpKey(active, opts)
        then PrivateKey(FirstReadable(KeyOrder, opts["pkey"], Passphrase(opts), reader).value, opts["pkey"])
        else Plain(opts["pkey"])
  {
    var active := ResolveProtocol(protocol);
    var fsUri := Replace(uri, Placeholder, active + "://");
    var filtered := FilterOptions(storageOptions, active);
    match filtered
    case Err(e) =>
      r := Err(e);
    case Ok(opts) =>
      var pre := Preprocess(active, opts, reader);
      match pre
      case Err(e) => r := Err(e);
      case Ok(resolved) => r := Ok(Settings(fsUri, lockTimeoutSeconds, lockRetrySeconds, resolved));
  }
}
