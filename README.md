# rvault in Dafny

This project models rvault, a small command-line password vault. Secrets are
stored as gpg-encrypted files named `<name>.gpg` under a vault directory. A JSON
file `.rvault` in that directory records the id of the secret key the vault was
initialised with. The model covers three source files:

- `src/gpg_helpers.rs`: the key-listing parser `get_secret_keys`,
  `list_passwords`, and `KeyIdName`'s `Display`.
- `src/commands.rs`: the commands `init`, `add`, `remove`, `list`, `show` and
  `copy`, plus `read_id`, `extract` and `get_secret_path`.
- `src/ui.rs`: the filename validator, the selection prompts, and the loop that
  keeps a secret on the clipboard for ten seconds.

Modules, one per file:

- `Results`: `Option`, `Result`, and `Outcome`, which is either a returned value
  or a panic with its message. `Expect` gives the meaning of
  `Result::expect`/`unwrap`.
- `Errors`: `VaultError` and `std::io::Error` (only its kind and message).
- `Strings`: the Rust `str` operations the code relies on, with the standard
  library's semantics. `trim_start_matches` and `trim_end_matches` strip
  repeatedly, not once.
- `Fs`: `PathBuf::join` on Unix, and the filesystem as a map from path strings
  to nodes. The map is held by the class `FileSystem`, whose methods are
  `create_dir_all`, `write` and `remove_file`. Each method is specified by a pure
  function of the old map.
- `GpgHelpers`: the parser as an imperative method, proved equal to a
  line-by-line state machine. On top of that comes a block-by-block
  characterisation: one record per `sec` line, in order, with the record's id and
  as its name each user id appended, after a `", "` only when the name so far is
  non-empty. Also the directory listing as an imperative method,
  and the shape and round trip of listed names.
- `Ui`: `FilenameValidator::validate`, the prompts reduced to the user's answers,
  `pick_key`, and `copy_to_clipboard_and_wait` as a loop over clock readings and
  poll results. `SystemClipboard` is a class holding the clipboard's contents.
- `Commands`: the commands as methods over a `FileSystem`, with the panics
  raised by their own `expect` calls and by the modelled helpers (the gpg and
  UTF-8 `unwrap`s are under "## Left out"). Also `read_id`'s sequence of checks, and the round
  trip from `init` to `read_id`.

Launching gpg, the terminal prompts, the clock and the directory walk are not
modelled as code. Their results are parameters: a listing of lines, the user's
typed entries and selection, a function `decrypt`/`encrypt`, clock readings and
poll results, and the sequence of entries the walk yields.

Where the code and its documentation differ, the model follows the code:

- A name given on the command line is joined to the vault unchecked. Nothing
  rejects a name with `/` or `..` (`Commands.SuppliedAbsoluteNameReplacesVault`,
  `Commands.SuppliedDotDotNameKept`).
- A failing `read()` inside the clipboard loop panics before `clear()` runs, so
  the secret stays on the clipboard.
- A failing `clear()` panics through `unwrap`.
- `write_password` always encrypts for the fixed recipient `ymiseddy@gmail.com`.
  It does not use the vault's configured key.

## Model

| member | source | states |
|---|---|---|
| Fs.Join | src/commands.rs:93 | `vault.join(c)`: an absolute component replaces the base; otherwise base, then a '/' unless the base is empty or ends in '/', then the component |
| Fs.ReadToString | src/commands.rs:42 | reading succeeds exactly on a readable file and returns its contents; a missing path, a directory or an unreadable file is an error |
| Fs.CreateDirAllEffect | src/commands.rs:67-69 | `create_dir_all` succeeds iff no path on the chain is a non-directory; afterwards the path and every ancestor on its chain, existing or newly created, are directories; the keys are the old ones plus the chain, and every old node is unchanged |
| Fs.WriteThenRead | src/commands.rs:79-81 | after a successful write, reading the path gives back the data, and no other path is added, removed or changed |
| Fs.RemoveFileEffect | src/commands.rs:27 | a successful `remove_file` deletes exactly that path and keeps every other node |
| Fs.FileSystem.CreateDirAll | src/commands.rs:68 | succeeds iff no node along the chain is a non-directory; the new map is then the one `CreateDirAllOn` describes, otherwise unchanged |
| Fs.FileSystem.Write | src/gpg_helpers.rs:156-157 | succeeds iff the parent directory exists and the path is not a directory; on success the path holds the data, on failure nothing changes |
| Fs.FileSystem.RemoveFile | src/commands.rs:27 | succeeds iff the path exists and is not a directory; on success the path is deleted, on failure nothing changes |
| Strings.TrimStartMatchesSpec | src/gpg_helpers.rs:122-123 | `trim_start_matches(p)` leaves a suffix of the input that no longer starts with `p`, and the removed prefix is a whole number of copies of `p`: at least one when the input starts with `p`, none otherwise |
| Strings.TrimStartCharSpec | src/gpg_helpers.rs:124-125 | `trim_start_matches(c)` leaves a suffix that does not start with `c`, and every character removed is `c` |
| Strings.TrimEndMatchesSpec | src/gpg_helpers.rs:126 | `trim_end_matches(".gpg")` leaves a prefix that no longer ends with the pattern, and the removed suffix is a whole number of copies of the pattern: at least one when the input ends with it, none otherwise |
| Strings.SplitSpec | src/gpg_helpers.rs:76 | `split(':')` gives fields that contain no ':'; joining the fields with ':' restores the line |
| Strings.SplitJoin | src/commands.rs:19-21 | splitting on a separator undoes joining parts that do not contain that separator |
| GpgHelpers.Display | src/gpg_helpers.rs:13-17 | a key is displayed as "(" + id + ", " + name + ")" |
| GpgHelpers.DisplayInjective | src/gpg_helpers.rs:13-17 | for ids without ',', two keys with the same display are the same key |
| GpgHelpers.GetSecretKeys | src/gpg_helpers.rs:48-103 | a failure to run gpg becomes `IoError`; otherwise the loop with the `initial` flag and the mutable current key returns exactly the records of the line-by-line parser `SecretKeys` |
| GpgHelpers.Decompose | src/gpg_helpers.rs:61-95 | every listing splits into a prefix without `sec` lines, then one block per `sec` line, in order; each block is a `sec` line followed by lines that are not `sec` lines |
| GpgHelpers.RunBlock | src/gpg_helpers.rs:67-94 | reading one whole block flushes the previous record, if there is one, and leaves the block's own record current |
| GpgHelpers.RunNoSec | src/gpg_helpers.rs:84-94 | lines without a `sec` line only append user ids to the current name |
| GpgHelpers.RunOverBlocks | src/gpg_helpers.rs:61-100 | after a prefix and a sequence of blocks, the flushed records are one per block; the parser is still before its first record iff there are no blocks |
| GpgHelpers.SecretKeysByBlock | src/gpg_helpers.rs:55-102 | there is one record per `sec` line, in input order; the k-th record has the k-th block's id, and as its name the user ids of its block, each appended after a ", " only when the name so far is non-empty; user ids before the first `sec` line go into the first record |
| GpgHelpers.NoSecNoKeys | src/gpg_helpers.rs:97-100 | a listing without any `sec` line gives no keys |
| GpgHelpers.RunAccumulatesAfterSec | src/gpg_helpers.rs:67-75 | the parser holds a current record iff a `sec` line has been read; it has then flushed one record fewer than the `sec` lines read |
| GpgHelpers.SecretKeysAppendBlock | src/gpg_helpers.rs:70-74 | once a `sec` line has been read, appending a block appends exactly that block's record |
| GpgHelpers.TwoKeysStaySeparate | src/gpg_helpers.rs:67-94 | with two keys, the second `sec` line clears id and name, so each user id stays with its own key |
| GpgHelpers.UidBeforeFirstSecKept | src/gpg_helpers.rs:55-69 | a user id read before the first `sec` line is not cleared by the first `sec` line; it becomes the first key's name |
| GpgHelpers.ShortSecLineClearsId | src/gpg_helpers.rs:70-80 | a `sec` line with fewer than five fields still flushes and clears the current key, but sets no id, so that record has id "" |
| GpgHelpers.IgnoredLineChangesNothing | src/gpg_helpers.rs:62-65 | an undecodable line, a uid line with fewer than ten fields, or any other line changes no record |
| GpgHelpers.NameIsJoinedFragments | src/gpg_helpers.rs:84-94 | when no user id is empty, a key's name is its user ids joined by ", " in order, and it is empty iff there are none |
| GpgHelpers.EmptyFragmentDropsSeparator | src/gpg_helpers.rs:90-93 | an empty first user id gets no separator before the next one, so the name differs from the `", "`-join of the fields |
| GpgHelpers.ListedNameShape | src/gpg_helpers.rs:122-126 | a listed name does not end in ".gpg" and occurs inside the file's path |
| GpgHelpers.EntryNames | src/gpg_helpers.rs:116-128 | a walk entry contributes one name iff it is a file whose path ends in ".gpg", otherwise none |
| GpgHelpers.ListedNames | src/gpg_helpers.rs:111-134 | the listing has at most one name per walk entry |
| GpgHelpers.ListPasswords | src/gpg_helpers.rs:111-134 | the loop over the walk returns the names of `ListedNames`: the secret files' derived names, in walk order |
| GpgHelpers.ListedNamesAppend | src/gpg_helpers.rs:113-130 | the listing of two walks in sequence is the first walk's listing followed by the second's |
| GpgHelpers.ListedNamesSound | src/gpg_helpers.rs:119-127 | every listed name is the derived name of some secret file of the walk |
| GpgHelpers.ListedNamesComplete | src/gpg_helpers.rs:119-127 | every secret file of the walk has its derived name listed |
| Ui.MatchesNamePatternExactly | src/ui.rs:102 | `^[a-zA-Z0-9_\- ]+$` matches exactly the non-empty strings made of those characters |
| Ui.ValidateAccepts | src/ui.rs:101-110 | the validator accepts an input iff it is non-empty and every character is a letter, a digit, '_', '-' or ' ' |
| Ui.ValidateMessages | src/ui.rs:103-108 | a rejected input gets the slash message iff it contains '/', and the charset message otherwise; the empty input gets the charset message |
| Ui.ValidNameIsPlain | src/ui.rs:101-110 | an accepted name contains no '/', '\\' or '.' |
| Ui.PromptForFilename | src/ui.rs:38-43 | the answer is an accepted entry from those typed; giving up is `InputError(Canceled)` |
| Ui.PromptForFilenameFirst | src/ui.rs:38-43 | the answer is the first accepted entry |
| Ui.PickPassword | src/ui.rs:9-13 | an empty list fails with `EmptyOptions`; otherwise the result is Ok iff the user picks, and it is the picked option |
| Ui.PickKey | src/ui.rs:113-117 | an empty list fails with `EmptyOptions`; otherwise the result is Ok iff the user picks, and it is the picked key's id |
| Ui.MaybePromptForPassword | src/ui.rs:27-36 | no prompt when the vault does not ask for a passphrase; otherwise the answer, or a panic with "Failed to read password." |
| Ui.WaitEnd | src/ui.rs:66-92 | the loop's last iteration is the first one, from the start, that does not go round again; every earlier iteration had time left and read a non-key event; the exit reason is that iteration's |
| Ui.WaitEndIsFirstStop | src/ui.rs:66-92 | any iteration that stops after a run of continuing iterations is the loop's end |
| Ui.WaitEndBounded | src/ui.rs:68-73 | with strictly increasing clock readings, the loop stops at an iteration whose index is at most 10000 (so `poll` is called at most 10000 times), and it stops on expiry iff the time is up |
| Ui.WaitForKeyOrExpiry | src/ui.rs:62-92 | the loop stops for the reason `WaitEnd` gives; it passes `poll` one positive timeout per iteration it reaches, 10000 minus the elapsed time, in order |
| Ui.SystemClipboard.SetText | src/ui.rs:54-60 | set_text succeeds iff the platform accepts the text, which then is the contents |
| Ui.SystemClipboard.Clear | src/ui.rs:93 | each call is counted; on success the clipboard is empty |
| Ui.CopyToClipboardAndWait | src/ui.rs:46-95 | without a clipboard or with a failed set_text, it returns with nothing touched and no wait. Otherwise each poll waits 10000 minus the elapsed time, always positive. A failed read panics and leaves the secret on the clipboard. Every other exit clears once, and panics if the clear fails |
| Commands.GetSecretPath | src/commands.rs:126-136 | a supplied name is joined as `name + ".gpg"`. Without a name, it is Ok iff the vault lists some secret and the user picks one; the path is the vault joined with the picked name plus ".gpg". Failures are input errors |
| Commands.SuppliedAbsoluteNameReplacesVault | src/commands.rs:128-129 | with an absolute supplied name, `join` ignores the vault: the path is the name plus ".gpg" |
| Commands.SuppliedDotDotNameKept | src/commands.rs:128-129 | a supplied "../x" is joined as it is, giving "/home/user/.vault/../x.gpg" |
| Commands.PickedPathComesFromWalk | src/commands.rs:130-134 | a picked path is the vault joined with the derived name of a secret file from the walk |
| Commands.EmptyVaultHasNoPath | src/commands.rs:130-132 | a vault without secret files lists nothing, and picking fails with `EmptyOptions` |
| Commands.SecretPathOfValidName | src/commands.rs:93 | the path of a valid name is the vault, the separator, the name and ".gpg" |
| Commands.ListedNameRoundTrip | src/gpg_helpers.rs:122-126 | a valid name stored by `add` is listed as itself, unless what follows the vault in its path starts with the vault string again |
| Commands.ListedNameLosesPrefix | src/gpg_helpers.rs:122-123 | for a vault longer than five characters, when the rest of the path starts with the vault string again, the repeated strip removes it too, and the name is not listed as itself |
| Commands.ListedNameRoundTripExactly | src/gpg_helpers.rs:122-126 | for vaults longer than five characters, a valid name is listed as itself iff the rest of its path does not start with the vault string |
| Commands.VaultPrefixCounterexample | src/gpg_helpers.rs:122-123 | in the vault "/vault", the valid name "vault1" is stored as "/vault/vault1.gpg" and listed as "1" |
| Commands.VaultPrefixPicksOtherFile | src/commands.rs:130-133 | picking that listed secret in the vault "/vault" resolves to "/vault/1.gpg", not to the file that holds it |
| Commands.ListedNameStripOnceRoundTrip | src/gpg_helpers.rs:122-126 | when the vault is removed once, as a prefix, every valid name is listed as itself, whatever the vault |
| Commands.Member | src/commands.rs:47 | `value["id"]` is the member when the value is an object with that key, and `Null` otherwise |
| Commands.ReadId | src/commands.rs:31-56 | each check in order, once the earlier ones pass: a missing vault gives `NotFound` "Vault is not initialized."; a vault that is not a directory gives `InvalidInput` "Vault is not a directory."; an unreadable `.rvault` gives the read error itself; text that does not parse gives `InvalidData` "Failed to parse ID file."; a null or absent "id" gives `NotFound` "Vault is not initialized."; otherwise the result is the id's `to_string` |
| Commands.ReadIdOkMeansInitialized | src/commands.rs:40-52 | an id is returned only when the id file exists and is readable, it parses, and its "id" member is not null |
| Commands.ReadIdNotFound | src/commands.rs:33-49 | with the id file present, "Vault is not initialized." has kind `NotFound` and means either no vault, or an id file that is readable and parses to a document whose "id" is null or absent |
| Commands.IdPathInsideVault | src/commands.rs:41 | the id file of a plain vault name is `vault + "/.rvault"`, directly inside the vault |
| Commands.ReadIdAfterWrite | src/commands.rs:76-81 | after `{"id": id}` is written into a directory vault, `read_id` returns `id` (assuming parsing undoes dumping) |
| Commands.ExtractClassifies | src/commands.rs:115-122 | a decrypted secret that does not start with "otpauth://" is returned as it is; one that does becomes the generated code; nothing else is returned |
| Commands.ExtractErrOnlyFromPath | src/commands.rs:112-113 | `extract` returns `Err` exactly when the secret path cannot be resolved; every other failure is a panic |
| Commands.Extract | src/commands.rs:112-123 | resolves the path, asks for the passphrase when configured, decrypts (panicking with "Failed to decrypt password."), and turns an OTP URL into its code, with the two OTP panics |
| Commands.LinesJoin | src/commands.rs:19-21 | the printed output is the names joined by newlines, followed by a final newline |
| Commands.ListOutputLines | src/commands.rs:17-22 | reading the output back line by line gives the listed names in order, then the empty rest after the last newline |
| Commands.List | src/commands.rs:17-22 | prints each name `list_passwords` returns on its own line, in walk order |
| Commands.Init | src/commands.rs:65-85 | creates the vault if it is missing, gets the keys, lets the user pick one and writes `{"id": id}` to `.rvault`; in this order it panics with "Failed to create vault directory.", "Failed to get secret keys.", "Failed to pick secret key.", "Failed to write ID file.", and it states the filesystem after each |
| Commands.InitThenReadId | src/commands.rs:65-81 | once `init` has picked a key and written its id into a plain vault directory, `read_id` returns that key's id (assuming parsing undoes dumping) |
| Commands.WritePassword | src/gpg_helpers.rs:136-160 | encrypts for the fixed recipient; an encryption failure returns that error and writes nothing; otherwise it writes the ciphertext to the path and succeeds iff the write succeeds |
| Commands.Add | src/commands.rs:88-96 | the name is the supplied one, unchecked, or the first accepted entry; the three panics in order; on success the ciphertext is stored at `vault.join(name + ".gpg")` and nothing else changes |
| Commands.Remove | src/commands.rs:25-28 | deletes exactly the resolved secret file and nothing else; panics "Failed to get secret path." or "Failed to remove file." and then changes nothing |
| Commands.Show | src/commands.rs:99-103 | prints the extracted secret and a newline; a failed extraction panics with "Failed to extract password." |
| Commands.Copy | src/commands.rs:106-109 | a failed extraction panics, and the clipboard's contents and its count of `clear` calls are unchanged; so does a clipboard that cannot be created or set, with no `clear` call. Otherwise the secret goes through the clipboard loop, with the same outcomes and clipboard state as `copy_to_clipboard_and_wait` |

## Left out

- Running gpg is not modelled: `decrypt_file`, `--list-secret-keys` and the
  encryption in `write_password` are replaced by their results. For
  `decrypt_file` and `write_password`, a non-zero exit code and its stderr
  become just an `Err`. `get_secret_keys` never reads the exit status: only a
  failed launch is an error (`IoError`), and whatever gpg printed is parsed.
- The `unwrap` panics on text that is not UTF-8, or on a missing exit code, are
  not modelled. These are `path.to_str().unwrap()` and
  `vault_dir.to_str().unwrap()` in `list_passwords` (src/gpg_helpers.rs:120,
  :123), and `status.code().unwrap()` and `String::from_utf8(..).unwrap()` in
  `decrypt_file` and `write_password`. Paths and gpg's output are strings here,
  so `list`, `add`, `show` and `copy`, and `remove` without a name, can end in panics
  that the model does not produce.
- Splitting gpg's stdout into lines and decoding each as UTF-8 is not modelled.
  The listing arrives as a sequence of lines, each either text or undecodable.
- `GpgHelpers.GetSecretKeys`: the empty segment after a trailing newline is not
  modelled separately. It is a line like any other: neither a `sec` line nor a
  `uid` line.
- TOTP parsing and code generation (`TOTP::from_url_unchecked`,
  `generate_current`) are given as parameters. The codes themselves are not
  modelled.
- `json::parse` and `JsonValue::dump` are given as parameters.
  `Commands.ReadIdAfterWrite` and `Commands.InitThenReadId` assume that parsing
  a dumped document returns it. Numbers, booleans and arrays keep only their
  display text.
- The `WalkDir` walk is an input: the entries it yields, in its order. Entries
  that fail are dropped, as `filter(is_ok)` does. Symlink handling and the
  traversal order itself are not modelled.
- Paths are plain strings. There is no normalisation, no `..` resolution, no
  symlinks and no permissions: `Fs.Node` keeps only directories, files, and
  files that fail to read.
- `Commands.InitThenReadId`, `Commands.ReadIdAfterWrite` and
  `Commands.IdPathInsideVault` require a plain vault name, one that is not empty
  and has no trailing '/'. The round trip also holds for a vault such as
  `/a/`, but because paths are not normalised, `/a/` and `/a` are different
  keys of the map, and the lemmas do not cover that case.
- `Ui.CopyToClipboardAndWait`: the clock is a sequence of readings in
  milliseconds, assumed strictly increasing, which makes the loop terminate. The
  real `Instant` only never goes backwards. `poll`'s waiting, and the durations
  below a millisecond, are not modelled.
- The terminal (`inquire`, `crossterm`) and the system clipboard (`arboard`) are
  replaced by the user's answers and by `SystemClipboard`. The clipboard's
  platform failures are booleans.
- `Ui.PromptForFilename`: re-asking after a rejected entry is modelled as a
  sequence of typed entries. The validator's error message is not shown.
- `prompt_for_password` and `prompt_for_otpauth` are given as their answers.
  `prompt_for_otpauth` is not used by any command.
- Printing is not modelled, except for what `list` and `show` write to stdout.
  The `eprintln!` messages, "Vault initialized.", "Done." and the clipboard
  banner are left out.
- A panic keeps only its message. The `: <error>` suffix that `expect` appends
  is left out.
- The `otp` command is `todo!()` in the source and is not part of this model.
- `get_vault_dir`, `dirs::home_dir` and `src/main.rs`'s argument parsing and
  configuration loading are not part of this model.

## Findings

| source | as written | input that shows it | evidently intended | confidence | as-written member | corrected member |
|---|---|---|---|---|---|---|
| src/gpg_helpers.rs:122-123 | `trim_start_matches(vault)` removes the vault string as many times as it repeats at the start of the path | vault "/vault", a secret added as "vault1", stored as "/vault/vault1.gpg": `list` prints "1", and picking it resolves to "/vault/1.gpg", which does not exist | the vault directory is removed once, as a path prefix, so that every valid name is listed as itself | not executed | Commands.VaultPrefixCounterexample, Commands.VaultPrefixPicksOtherFile | Commands.ListedNameStripOnceRoundTrip |

The listing methods (`GpgHelpers.ListPasswords`, `Commands.List`,
`Commands.GetSecretPath`) keep the derivation as written (`GpgHelpers.ListedName`),
because they model the program. `GpgHelpers.ListedNameStripOnce` is the
corrected derivation. `Commands.ListedNameStripOnceRoundTrip` proves its round
trip for every vault, while `Commands.ListedNameRoundTripExactly` gives the exact
condition under which the code as written succeeds.
