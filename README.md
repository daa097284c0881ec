# fsspec state backend for Meltano: a Dafny model

This project models the state store manager of `meltano-state-backend-fsspec`. The manager keeps Meltano state documents and lock records on any filesystem reachable through an fsspec URI (local, S3, GCS, Azure, SFTP, ...). Under the base location, each state id has a directory holding `state.json` (the state document) and, while the id is locked, a file `lock` whose text is the time it was written.

The model has these modules:

- `Config` models what the constructor resolves:
  - the protocol alias table (`azure` → `abfs`);
  - replacing the `fs://` placeholder in the URI with the resolved scheme;
  - filtering the flat `"<prefix>.<name>"` option mapping down to the active backend;
  - converting an SFTP private key by trying Ed25519, RSA and ECDSA in turn.

  `ResolveSettings` can fail. The `Manager.StateStoreManager` constructor then builds a manager from the settings it returns.
- `Text` holds `str.split` and `str.replace` with their left-to-right, non-overlapping semantics, plus lemmas about them.
- `Decimal` writes and parses lock timestamps.
- `Glob` matches `*` and `?` patterns.
- `Layout` builds paths: `<base>/<id>/state.json` and `<base>/<id>/lock`.
- `Manager` models the storage as a map from state id to directory, a directory being a map from file name to text. A flag records whether the base location exists. `StateStoreManager` is a class whose methods update that tree in place. The clock is a field, and sleeping advances it and appends the wait to a log.
- `Scenarios` replays the repository's test scenarios as client methods. They use only the contracts of the operations above:
  - set then get, for one state and for any state on any manager;
  - idempotent delete;
  - listing by pattern;
  - `clear_all` counting;
  - stale-lock reclaim under the default 60-second timeout;
  - exactly N sleeps for N locked polls;
  - lock release when the protected section raises;
  - Azure option filtering;
  - rejection of an unreadable SFTP key.

The constructor documents `lock_retry_seconds` as the retry interval for the lock (`manager.py:83`). However, `acquire_lock` takes a required keyword-only `retry_seconds` (`manager.py:227`) and never reads the stored field. The model does the same: the field is kept, and `Acquire` takes `retrySeconds`.

`Path` models the lazily cached base location (`manager.py:105-109`) and stands alone. The storage tree is already relative to that base, so the other operations do not go through it.

The `Layout` functions also stand alone. In the tree, the key (id, `state.json`) stands for `StateFile(base, id)`, and (id, `lock`) stands for `LockFile(base, id)`. `PathsInjective` and `LockIsNeverState` show that distinct keys are distinct paths, which is what keying the tree by id and file name relies on.

## Model

| member | source | states |
|---|---|---|
| Config.ResolveProtocol | src/meltano_state_backend_fsspec/manager.py:62-64 | An aliased protocol maps to its concrete scheme, and any other name passes through unchanged. The result is never itself an alias. |
| Config.ResolveUri | src/meltano_state_backend_fsspec/manager.py:89-90 | Defines the resolved URI: every `fs://` in the URI is replaced by the alias-resolved protocol followed by `://`. |
| Text.Replace | src/meltano_state_backend_fsspec/manager.py:90 | Defines `str.replace`: every non-overlapping occurrence of the pattern, scanning left to right, is replaced. |
| Config.ResolveUriLeadingPlaceholder | src/meltano_state_backend_fsspec/manager.py:89-90 | A URI `fs://rest`, where `rest` holds no further `fs://`, becomes `<resolved scheme>://rest`. |
| Config.ResolveUriWithoutPlaceholder | src/meltano_state_backend_fsspec/manager.py:90 | A URI without `fs://` is kept unchanged, whatever the protocol. |
| Text.ReplaceIsJoinOfSplit | src/meltano_state_backend_fsspec/manager.py:90 | Replacing every occurrence equals splitting at the pattern and joining with the replacement. |
| Text.ReplaceBySelf | src/meltano_state_backend_fsspec/manager.py:90 | Replacing a pattern by itself changes nothing, so a protocol of `fs` leaves the URI unchanged. |
| Text.ReplaceWithoutOccurrence | src/meltano_state_backend_fsspec/manager.py:90 | A string in which the pattern does not occur is not changed by the replacement. |
| Text.Split | src/meltano_state_backend_fsspec/manager.py:97 | Defines `str.split` on a separator: cut at every non-overlapping occurrence, scanning left to right. There is always at least one part. |
| Text.SplitPartsFree | src/meltano_state_backend_fsspec/manager.py:97 | No part of a split contains the separator, so splitting does cut at every occurrence. |
| Text.SplitJoinRoundTrip | src/meltano_state_backend_fsspec/manager.py:97 | Joining the parts of a split with the separator gives back the key. |
| Text.SplitCount | src/meltano_state_backend_fsspec/manager.py:97 | Splitting on one character yields one more part than that character occurs. |
| Text.TwoPartSplit | src/meltano_state_backend_fsspec/manager.py:97 | A key unpacks into exactly two parts iff it holds exactly one dot. The parts are then the dot-free text before and after the dot. |
| Config.WellFormedKey | src/meltano_state_backend_fsspec/manager.py:97 | Defines a key the two-way unpack accepts: splitting it at `.` yields exactly two parts. |
| Config.NameFor | src/meltano_state_backend_fsspec/manager.py:97-99 | Defines what a well-formed key contributes: its second part when its alias-resolved first part is the active protocol, and nothing otherwise. |
| Config.NameForKey | src/meltano_state_backend_fsspec/manager.py:97-101 | `prefix.name` with dot-free parts is well formed. It contributes `name` iff its alias-resolved prefix is the active protocol. |
| Config.AliasedPrefixesAgree | src/meltano_state_backend_fsspec/manager.py:98-99 | Under protocol `azure`, both `azure.x` and `abfs.x` options are selected. |
| Config.Filtered | src/meltano_state_backend_fsspec/manager.py:94-101 | Defines the option filter over the entries in iteration order. A malformed key stops it with an error, and a key of another backend is skipped. A key of the active backend binds its short name, later entries overwriting earlier ones. |
| Config.FilterOptions | src/meltano_state_backend_fsspec/manager.py:94-101 | The loop's result equals the filter `Filtered` over the entries in iteration order. |
| Config.FilteredFailsOnFirstMalformedKey | src/meltano_state_backend_fsspec/manager.py:96-97 | Filtering fails iff some key does not split into two parts. The error then names the first such key. |
| Config.FilteredErrorPersists | src/meltano_state_backend_fsspec/manager.py:96-97 | Once a prefix of the entries fails, the whole filtering fails with the same error. |
| Config.FilteredKeys | src/meltano_state_backend_fsspec/manager.py:96-101 | On success, a name is in the result iff some entry's key contributes it under the active protocol. |
| Config.FilteredValue | src/meltano_state_backend_fsspec/manager.py:101 | The value bound to a name is that of the last entry contributing it, so later duplicates overwrite earlier ones. |
| Config.FirstReadable | src/meltano_state_backend_fsspec/manager.py:40-47 | Defines the trial order: the first format in the list whose reader accepts the key text and passphrase, or none. |
| Config.FirstReadableIsFirst | src/meltano_state_backend_fsspec/manager.py:40-47 | The chosen format is the earliest one whose reader accepts the key. There is none iff no format accepts it. |
| Config.GuessKeyKind | src/meltano_state_backend_fsspec/manager.py:32-48 | It succeeds iff some format in the order Ed25519, RSA, ECDSA reads the key, and then returns the first one. Otherwise it fails with the invalid-format error. |
| Config.HasSftpKey | src/meltano_state_backend_fsspec/manager.py:56 | Defines when preprocessing converts a key: the protocol is `sftp` and `pkey` is present and non-empty, which is the truth test of the walrus. |
| Config.Passphrase | src/meltano_state_backend_fsspec/manager.py:57 | Defines the passphrase handed to the key readers: the `passphrase` option when present, otherwise none, as `options.get("passphrase")` does. |
| Config.AsPlain | src/meltano_state_backend_fsspec/manager.py:51-59 | Options pass through with the same keys and the same text values. |
| Config.Preprocess | src/meltano_state_backend_fsspec/manager.py:51-59 | An SFTP `pkey` that is present and non-empty becomes a key of the first readable format, or preprocessing fails. Every other option, and every other backend's options, pass unchanged. |
| Config.ResolveSettings | src/meltano_state_backend_fsspec/manager.py:68-103 | The defaults are those of the source: a lock timeout of 60 seconds, a retry interval of 1 second and no options. A malformed key or an unreadable SFTP key is propagated as the error, and those are the only errors. On success: the URI is the resolved one, the timeouts are kept, the option keys are exactly the filtered ones, and the values are the filtered text, apart from a converted `pkey`. |
| Manager.StateStoreManager.constructor | src/meltano_state_backend_fsspec/manager.py:87-92 | The manager keeps the resolved settings, has no cached path yet and starts from the given storage and clock. |
| Manager.StateStoreManager.Path | src/meltano_state_backend_fsspec/manager.py:105-109 | The base location is resolved on first use, cached, and the same on every call. |
| Layout.StateFile | src/meltano_state_backend_fsspec/manager.py:127-136 | The state file lies inside the id's directory. |
| Layout.LockFile | src/meltano_state_backend_fsspec/manager.py:116-125 | The lock file lies inside the id's directory. |
| Layout.PathsInjective | src/meltano_state_backend_fsspec/manager.py:116-136 | Distinct state ids never share a state file or a lock file. |
| Layout.LockIsNeverState | src/meltano_state_backend_fsspec/manager.py:116-136 | No lock file is ever a state file. |
| Decimal.Show | src/meltano_state_backend_fsspec/manager.py:237 | A written timestamp is a non-empty run of digits without a leading zero. |
| Decimal.Parse | src/meltano_state_backend_fsspec/manager.py:153 | Lock text parses iff it is a non-empty run of digits. |
| Decimal.ParseShow | src/meltano_state_backend_fsspec/manager.py:153 | Parsing a written timestamp gives back that timestamp. |
| Decimal.ShowInjective | src/meltano_state_backend_fsspec/manager.py:237 | Different timestamps are written as different texts. |
| Manager.WrittenLockStamp | src/meltano_state_backend_fsspec/manager.py:236-237 | After a lock is written at time t, reading the lock record gives t. |
| Layout.StateDir | src/meltano_state_backend_fsspec/manager.py:164 | Defines the directory of a state id as `<base>/<id>`. It is the directory that `mkdir` creates and `delete` removes. |
| Manager.LockStamp | src/meltano_state_backend_fsspec/manager.py:152-153 | Defines what reading a lock record gives: the timestamp its text parses to, or none when there is no record or the text is not a timestamp. |
| Manager.LockUnreadable | src/meltano_state_backend_fsspec/manager.py:153 | Defines when the read raises: a lock record exists but its text is not a timestamp. |
| Manager.Expired | src/meltano_state_backend_fsspec/manager.py:153 | A lock is stale only when the clock is strictly past its stamp plus the timeout, so at exactly the deadline it still holds. |
| Manager.WithDir | src/meltano_state_backend_fsspec/manager.py:164 | Making a directory adds an empty one when it is missing, keeps an existing one, and touches no other id. |
| Manager.WithFile | src/meltano_state_backend_fsspec/manager.py:171-175 | Writing a file (re)binds that one name in that one directory and nothing else. |
| Manager.WithoutLock | src/meltano_state_backend_fsspec/manager.py:156 | Removing a lock record drops that one file and keeps every directory and every other file. |
| Manager.StateStoreManager.Sleep | src/meltano_state_backend_fsspec/manager.py:235 | A sleep advances the clock by its duration and is logged. |
| Manager.StateStoreManager.IsLocked | src/meltano_state_backend_fsspec/manager.py:138-160 | No lock record means unlocked. A stale record (clock past stamp plus timeout) is removed and reported unlocked. A valid record is reported locked. A record that is not a timestamp is an error. Only the stale case changes the storage. |
| Manager.StateStoreManager.Mkdir | src/meltano_state_backend_fsspec/manager.py:162-164 | The base location exists afterwards, and the id's directory is created if missing (`exist_ok`) and kept otherwise. |
| Manager.StateStoreManager.Set | src/meltano_state_backend_fsspec/manager.py:166-175 | The document is written as the id's `state.json`, creating the directory and overwriting an earlier document. Nothing else changes. |
| Manager.StateStoreManager.Get | src/meltano_state_backend_fsspec/manager.py:177-186 | It finds a state iff the id's `state.json` exists, and returns that id with that document. Otherwise it returns nothing. |
| Manager.StateStoreManager.Delete | src/meltano_state_backend_fsspec/manager.py:188-202 | The id's directory and every file in it are gone afterwards, and nothing else changes. An absent id is no error. |
| Manager.Listed | src/meltano_state_backend_fsspec/manager.py:209 | A missing or empty pattern lists every child, as `if pattern` does. Any other pattern lists the children the glob matches. |
| Manager.StateIds | src/meltano_state_backend_fsspec/manager.py:209-210 | Defines the listed ids: the children that the pattern selects and that hold a `state.json`. |
| Manager.StateStoreManager.GetStateIds | src/meltano_state_backend_fsspec/manager.py:204-210 | Without a base location the list is empty. Otherwise it lists, without repetition, exactly the children that match the pattern and hold a `state.json`. An empty pattern lists every such child. |
| Glob.Matches | src/meltano_state_backend_fsspec/manager.py:209 | Defines glob matching of one name: `*` matches any run of characters, `?` matches any one character, and any other character matches itself. |
| Glob.StarMatchesAll | src/meltano_state_backend_fsspec/manager.py:209 | `*` matches every name. |
| Glob.LiteralMatchesItself | src/meltano_state_backend_fsspec/manager.py:209 | A pattern without wildcards matches exactly its own text. |
| Glob.PrefixStar | src/meltano_state_backend_fsspec/manager.py:209 | `p*`, with `p` free of wildcards, matches exactly the names that start with `p`. |
| Manager.DistinctCardinality | src/meltano_state_backend_fsspec/manager.py:210 | A list without repetition has as many entries as distinct elements, so the listing's length is the number of ids. |
| Manager.StateStoreManager.ClearAll | src/meltano_state_backend_fsspec/manager.py:212-219 | It returns the number of listed ids, deletes exactly their directories, and lists nothing afterwards. Directories without a state document are kept. |
| Manager.StateStoreManager.Poll | src/meltano_state_backend_fsspec/manager.py:234 | One poll of the acquisition loop. The first `heldElsewhere` polls see another holder, and later ones are `is_locked`. |
| Manager.Waits | src/meltano_state_backend_fsspec/manager.py:234-235 | Defines the number of polls, from `now` in steps of `retry` seconds, that still find a lock valid until `deadline`. |
| Manager.Rounds | src/meltano_state_backend_fsspec/manager.py:234-235 | Defines the number of iterations of the `while`: the polls answered by another holder, then the polls that find the stored lock still valid. Each iteration is one sleep. |
| Manager.WaitsBounds | src/meltano_state_backend_fsspec/manager.py:234-235 | Polling every `retry` seconds, the number of polls that find a lock still valid is the least count that takes the clock past the lock's deadline. |
| Manager.StateStoreManager.AwaitUnlocked | src/meltano_state_backend_fsspec/manager.py:234-235 | The loop stops at the first poll that finds no valid lock. It sleeps exactly once per locked poll, always for the retry interval, and the clock advances by that total. It fails iff the lock record is not a timestamp, and then leaves the storage unchanged. On success the storage is the old one without the lock record: a stale record is removed and a missing one stays missing. |
| Manager.StateStoreManager.Acquire | src/meltano_state_backend_fsspec/manager.py:221-237 | It creates the directory, waits exactly the computed number of retry intervals, then writes the current time as the lock record. It fails iff the existing record is not a timestamp, and then writes no lock. |
| Manager.StateStoreManager.Release | src/meltano_state_backend_fsspec/manager.py:239-245 | The lock record is removed, and a missing one is no error. Nothing else changes. |
| Manager.StateStoreManager.WithLock | src/meltano_state_backend_fsspec/manager.py:221-245 | The protected section runs on the storage with the freshly written lock. Afterwards the lock record is gone, whether the section returned or raised or acquisition failed. The section's or the acquisition's failure is returned. |
| Scenarios.SetThenGetAny | src/meltano_state_backend_fsspec/manager.py:166-186 | For any valid manager and any state, `get` of the id just `set` returns that state. |
| Scenarios.StarListing | src/meltano_state_backend_fsspec/manager.py:209-210 | Under `prefix*`, exactly the stored ids that start with `prefix` are listed. |
| Scenarios.ForeignOptionDropped | src/meltano_state_backend_fsspec/manager.py:96-101 | Of an active-backend option and a foreign one, only the first is kept, under its short name. |
| Scenarios.BothOptionsKept | src/meltano_state_backend_fsspec/manager.py:96-101 | Two options of the active backend are both kept, under their short names. |

## Left out

- Clock: `utc_now()` returns a float and `str()` writes it with a fractional part. The model's clock is a natural number of seconds, and lock text is its decimal form.
- Decimal.Parse: Python's `float()` also accepts signs, a fraction, exponents, surrounding whitespace and `inf`/`nan`. The model treats only digit runs as readable, and any other text raises, as `float()` does on non-numeric text.
- Manager.StateStoreManager.Acquire: requires `retrySeconds > 0`. The source sleeps only after a poll finds the lock held (`manager.py:234-235`), so with a free lock it proceeds with any `retry_seconds`. With a held lock, 0 busy-waits on the real clock, and a negative value makes `sleep` raise `ValueError`. The model needs the positive interval for its termination measure: `Waits` and `Rounds`, which count the loop's iterations, require `retry > 0`.
- Manager.StateStoreManager.AwaitUnlocked: requires `retrySeconds > 0`, for the same reason as Acquire.
- Manager.StateStoreManager.WithLock: requires `retrySeconds > 0`, because it acquires the lock through Acquire.
- Sleeping is modelled as advancing the clock and logging the duration. Real time passing between polls is not modelled.
- Other processes are modelled only through `heldElsewhere`: the number of initial polls that see the lock held. `acquire_lock` polls `is_locked` and then writes the lock with a plain `open("w")` (`manager.py:234-237`). There is no atomic create-if-absent, so two waiters that both see the lock free both write it. This race is not modelled.
- Option values are strings. Values of other types, `None` values and `storage_options=None` (the same as no options) are modelled by an empty or string-valued entry list.
- Private-key parsing by paramiko is a caller-supplied reader predicate per format. The key object is represented by its format and PEM text.
- `UPath.from_uri`, the `label` property and the backends themselves (S3, GCS, Azure, SFTP) are left out. The resolved path is the resolved URI string, and the storage is an in-memory tree.
- Glob.Matches: supports only `*` and `?`. Character classes, `**` and path separators in patterns are not modelled.
- Manager.StateStoreManager.GetStateIds: the order of the listing is unspecified here, because the source's order comes from the backend's directory listing.
- The state document is opaque text. `MeltanoState` serialisation and parsing are not part of this model.
- Logging calls and the `ContentType` hint on writes have no effect on state and are left out.
- Backend I/O errors (`FileNotFoundError`/`OSError` suppressed by `rm_file`, `rmdir` and `delete`) are modelled as always succeeding. Network and authentication failures are not modelled.
- State ids are treated as single path segments. An id holding `/` is not modelled as nested directories.
- `lock_retry_seconds` is kept in the settings but, as in the source, never read.
