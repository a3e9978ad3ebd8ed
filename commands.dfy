/**
 * src/commands.rs: the vault commands. `read_id`, `get_secret_path` and
 * `extract` are decisions over values; `init`, `add`, `remove` and `list`
 * are sequences of effects on the filesystem object.
 *
 * The gpg subprocesses (`decrypt_file`, the encryption in
 * `write_password`), TOTP code generation, the JSON parser and printer,
 * the prompts and the directory walk are parameters: their answers are
 * given, not computed.
 */
module Commands {
  import opened Results
  import opened Strings
  import opened Errors
  import Fs
  import opened GpgHelpers
  import opened Ui

  /** `VaultConfig`: where the vault lives, whether gpg needs a passphrase, the configured key. */
  datatype VaultConfig = VaultConfig(vault: string, askPassword: bool, keyId: string)

  /** The file inside the vault that records the chosen key id. */
  const ID_FILE := ".rvault"

  const NOT_INITIALIZED := "Vault is not initialized."
  const NOT_A_DIRECTORY := "Vault is not a directory."
  const BAD_ID_FILE := "Failed to parse ID file."

  /** The prefix that marks a stored secret as an OTP URL rather than a password. */
  const OTP_PREFIX := "otpauth://"

  /** The recipient `write_password` always encrypts to. */
  const RECIPIENT := "ymiseddy@gmail.com"

  /** `vault.join(name + ".gpg")`: where the secret called `name` is stored. */
  function SecretPath(vault: string, name: string): string {
    Fs.Join(vault, name + SECRET_SUFFIX)
  }

  /** `vault.join(".rvault")`. */
  function IdPath(vault: string): string {
    Fs.Join(vault, ID_FILE)
  }

  // ---------------------------------------------------------------------
  // get_secret_path
  // ---------------------------------------------------------------------

  /** The selection the picker can make among the names listed for the vault. */
  predicate PickerFits(vault: string, entries: seq<WalkEntry>, choice: Selection) {
    var names := ListedNames(vault, entries);
    |names| > 0 ==> SelectionFits(choice, |names|)
  }

  /**
   * `get_secret_path`: a supplied name is joined as it is, without
   * validation; otherwise the user picks one of the listed names.
   * `entries` is the walk of the vault and `choice` the user's pick.
   */
  function GetSecretPath(name: Option<string>, config: VaultConfig, entries: seq<WalkEntry>, choice: Selection): (r: Result<string, VaultError>)
    requires name.None? ==> PickerFits(config.vault, entries, choice)
    ensures name.Some? ==> r == Ok(SecretPath(config.vault, name.value))
    ensures name.None? ==> (r.Ok? <==> |ListedNames(config.vault, entries)| > 0 && choice.Chose?)
    ensures name.None? && r.Ok? ==> r.value == SecretPath(config.vault, ListedNames(config.vault, entries)[choice.index])
    ensures name.None? && r.Err? ==> r.error.InputError?
  {
    match name
    case Some(n) => Ok(SecretPath(config.vault, n))
    case None =>
      match PickPassword(ListedNames(config.vault, entries), choice)
      case Err(e) => Err(e)
      case Ok(picked) => Ok(SecretPath(config.vault, picked))
  }

  /** A supplied name that is absolute makes `join` ignore the vault: the path is the name itself plus ".gpg". */
  lemma SuppliedAbsoluteNameReplacesVault(config: VaultConfig, name: string, entries: seq<WalkEntry>, choice: Selection)
    requires StartsWith(name, "/")
    ensures GetSecretPath(Some(name), config, entries, choice) == Ok(name + SECRET_SUFFIX)
  {
    assert (name + SECRET_SUFFIX)[..1] == name[..1];
  }

  /** A supplied name with ".." is joined as it is: `../x` leads out of the vault. */
  lemma SuppliedDotDotNameKept(config: VaultConfig, entries: seq<WalkEntry>, choice: Selection)
    requires config.vault == "/home/user/.vault"
    ensures GetSecretPath(Some("../x"), config, entries, choice) == Ok("/home/user/.vault/../x.gpg")
  {
    assert !StartsWith("../x.gpg", "/") by {
      assert "../x.gpg"[0] == '.';
    }
    assert !EndsWith("/home/user/.vault", "/") by {
      assert "/home/user/.vault"[16] == 't';
    }
    assert "/home/user/.vault" + "/" + ("../x" + ".gpg") == "/home/user/.vault/../x.gpg";
  }

  /** A picked path belongs to a secret file of the walk: it is the vault joined with that file's listed name. */
  lemma PickedPathComesFromWalk(config: VaultConfig, entries: seq<WalkEntry>, choice: Selection)
    requires PickerFits(config.vault, entries, choice)
    requires GetSecretPath(None, config, entries, choice).Ok?
    ensures exists i :: (0 <= i < |entries| && IsSecretFile(entries[i]) &&
      GetSecretPath(None, config, entries, choice).value == SecretPath(config.vault, ListedName(config.vault, entries[i].path)))
  {
    var names := ListedNames(config.vault, entries);
    var picked := names[choice.index];
    ListedNamesSound(config.vault, entries, picked);
  }

  /** A vault with no secret file gives the picker nothing to offer, and the resolution fails. */
  lemma EmptyVaultHasNoPath(config: VaultConfig, entries: seq<WalkEntry>, choice: Selection)
    requires forall i :: 0 <= i < |entries| ==> !IsSecretFile(entries[i])
    ensures ListedNames(config.vault, entries) == []
    ensures GetSecretPath(None, config, entries, choice) == Err(InputError(EmptyOptions))
  {
    if |ListedNames(config.vault, entries)| > 0 {
      var name := ListedNames(config.vault, entries)[0];
      ListedNamesSound(config.vault, entries, name);
    }
  }

  // ---------------------------------------------------------------------
  // Names and paths: the round trip through list_passwords
  // ---------------------------------------------------------------------

  /** What the vault prefix is compared against in the second, unintended strip. */
  function AfterVault(vault: string, name: string): string {
    Fs.Separator(vault) + name + SECRET_SUFFIX
  }

  lemma {:induction false} TrimStartCharNoMatch(s: string, c: char)
    requires s == [] || s[0] != c
    ensures TrimStartChar(s, c) == s
  {
  }

  /** Where the secret of a valid name is stored, spelled out. */
  lemma SecretPathOfValidName(vault: string, name: string)
    requires Validate(name) == Valid
    ensures SecretPath(vault, name) == vault + AfterVault(vault, name)
  {
    ValidateAccepts(name);
    ValidNameIsPlain(name);
    var s := name + SECRET_SUFFIX;
    assert s[0] == name[0] && name[0] in name;
    assert !StartsWith(s, "/") by {
      assert s[..1][0] == s[0];
    }
    assert vault + Fs.Separator(vault) + s == vault + AfterVault(vault, name);
  }

  /** Trimming ".gpg" from a valid name followed by ".gpg" gives the name back. */
  lemma TrimSuffixOfValidName(name: string)
    requires Validate(name) == Valid
    ensures TrimEndMatches(name + SECRET_SUFFIX, SECRET_SUFFIX) == name
  {
    ValidNameIsPlain(name);
    var s := name + SECRET_SUFFIX;
    assert s[..|s| - |SECRET_SUFFIX|] == name;
    assert EndsWith(s, SECRET_SUFFIX);
    if |name| >= 4 {
      assert name[|name| - 4] in name;
      assert name[|name| - 4..][0] != SECRET_SUFFIX[0];
    }
    assert !EndsWith(name, SECRET_SUFFIX);
    TrimEndMatchesSpec(name, SECRET_SUFFIX);
  }

  /** Stripping the separator and then the backslashes from `sep + name + ".gpg"` leaves `name + ".gpg"`. */
  lemma StripSeparators(vault: string, name: string)
    requires Validate(name) == Valid
    ensures TrimStartChar(TrimStartChar(AfterVault(vault, name), '/'), '\\') == name + SECRET_SUFFIX
  {
    ValidNameIsPlain(name);
    ValidateAccepts(name);
    var rest := name + SECRET_SUFFIX;
    assert rest[0] == name[0] && name[0] in name;
    if Fs.Separator(vault) == "/" {
      assert AfterVault(vault, name) == "/" + rest;
      assert ("/" + rest)[1..] == rest;
    } else {
      assert AfterVault(vault, name) == rest;
    }
    TrimStartCharNoMatch(rest, '/');
    TrimStartCharNoMatch(rest, '\\');
  }

  /**
   * Round trip: a valid name stored in the vault is listed under that name,
   * provided the part of the path after the vault does not itself start
   * with the vault string (`trim_start_matches` strips every leading copy).
   */
  lemma ListedNameRoundTrip(vault: string, name: string)
    requires Validate(name) == Valid
    requires vault == "" || !StartsWith(AfterVault(vault, name), vault)
    ensures ListedName(vault, SecretPath(vault, name)) == name
  {
    SecretPathOfValidName(vault, name);
    var rest := AfterVault(vault, name);
    var path := vault + rest;
    if vault != "" {
      assert StartsWith(path, vault) && path[|vault|..] == rest;
    }
    assert TrimStartMatches(path, vault) == rest;
    StripSeparators(vault, name);
    TrimSuffixOfValidName(name);
  }

  /**
   * The round trip fails whenever the part after the vault starts with the
   * vault string again and the vault is longer than five characters:
   * the second strip then eats into the name.
   */
  lemma ListedNameLosesPrefix(vault: string, name: string)
    requires Validate(name) == Valid
    requires |vault| > 5
    requires StartsWith(AfterVault(vault, name), vault)
    ensures ListedName(vault, SecretPath(vault, name)) != name
  {
    SecretPathOfValidName(vault, name);
    var rest := AfterVault(vault, name);
    var path := vault + rest;
    assert path[..|vault|] == vault && path[|vault|..] == rest;
    var a := TrimStartMatches(rest, vault);
    assert TrimStartMatches(path, vault) == a;
    assert a == TrimStartMatches(rest[|vault|..], vault);
    TrimStartMatchesSuffix(rest[|vault|..], vault);
    var b := TrimStartChar(a, '/');
    TrimStartCharShorter(a, '/');
    var c := TrimStartChar(b, '\\');
    TrimStartCharShorter(b, '\\');
    TrimEndMatchesPrefix(c, SECRET_SUFFIX);
    assert |rest| <= |name| + 5;
  }

  /** For vaults longer than five characters the condition of the round trip is exact. */
  lemma ListedNameRoundTripExactly(vault: string, name: string)
    requires Validate(name) == Valid
    requires |vault| > 5
    ensures ListedName(vault, SecretPath(vault, name)) == name <==> !StartsWith(AfterVault(vault, name), vault)
  {
    if StartsWith(AfterVault(vault, name), vault) {
      ListedNameLosesPrefix(vault, name);
    } else {
      ListedNameRoundTrip(vault, name);
    }
  }

  /** The vault "/vault" and the name "vault1": the secret is stored as "/vault/vault1.gpg" and listed as "1". */
  lemma VaultPrefixCounterexample()
    ensures Validate("vault1") == Valid
    ensures SecretPath("/vault", "vault1") == "/vault/vault1.gpg"
    ensures ListedName("/vault", "/vault/vault1.gpg") == "1"
  {
    ValidateAccepts("vault1");
    StoredPathOfVault1();
    ListedNameOfVault1();
  }

  /** `trim_start_matches` removes a pattern that occurs twice in a row at the start in both copies. */
  lemma TrimRepeatedPrefix(v: string, rest: string)
    requires |v| > 0
    ensures TrimStartMatches(v + v + rest, v) == TrimStartMatches(rest, v)
  {
    var s := v + v + rest;
    assert s[..|v|] == v && s[|v|..] == v + rest;
    assert (v + rest)[..|v|] == v && (v + rest)[|v|..] == rest;
  }

  lemma StoredPathOfVault1()
    ensures SecretPath("/vault", "vault1") == "/vault/vault1.gpg"
  {
    assert !StartsWith("vault1.gpg", "/") by { assert "vault1.gpg"[0] == 'v'; }
    assert !EndsWith("/vault", "/") by { assert "/vault"[5] == 't'; }
  }

  lemma ListedNameOfVault1()
    ensures ListedName("/vault", "/vault/vault1.gpg") == "1"
  {
    assert "/vault/vault1.gpg" == "/vault" + "/vault" + "1.gpg";
    TrimRepeatedPrefix("/vault", "1.gpg");
    assert TrimStartMatches("1.gpg", "/vault") == "1.gpg";
    TrimStartCharNoMatch("1.gpg", '/');
    TrimStartCharNoMatch("1.gpg", '\\');
    assert EndsWith("1.gpg", SECRET_SUFFIX) && "1.gpg"[..1] == "1";
    assert TrimEndMatches("1", SECRET_SUFFIX) == "1";
  }

  /** Picking that listed secret resolves to "/vault/1.gpg", not to the file that holds it. */
  lemma VaultPrefixPicksOtherFile(config: VaultConfig)
    requires config.vault == "/vault"
    ensures GetSecretPath(None, config, [Entry("/vault/vault1.gpg", true)], Chose(0)) == Ok("/vault/1.gpg")
  {
    ListingOfVault1();
    StoredPathOfOne();
  }

  lemma ListingOfVault1()
    ensures ListedNames("/vault", [Entry("/vault/vault1.gpg", true)]) == ["1"]
  {
    var e := Entry("/vault/vault1.gpg", true);
    ListedNameOfVault1();
    assert IsSecretFile(e) by { assert EndsWith(e.path, SECRET_SUFFIX); }
    assert [e][..0] == [];
  }

  lemma StoredPathOfOne()
    ensures SecretPath("/vault", "1") == "/vault/1.gpg"
  {
    assert !StartsWith("1.gpg", "/") by { assert "1.gpg"[0] == '1'; }
    assert !EndsWith("/vault", "/") by { assert "/vault"[5] == 't'; }
  }

  /** With the vault stripped once, as a path prefix, every valid name comes back whatever the vault. */
  lemma ListedNameStripOnceRoundTrip(vault: string, name: string)
    requires Validate(name) == Valid
    ensures ListedNameStripOnce(vault, SecretPath(vault, name)) == name
  {
    SecretPathOfValidName(vault, name);
    var path := vault + AfterVault(vault, name);
    assert StartsWith(path, vault) && path[|vault|..] == AfterVault(vault, name);
    StripSeparators(vault, name);
    TrimSuffixOfValidName(name);
  }

  // ---------------------------------------------------------------------
  // read_id
  // ---------------------------------------------------------------------

  /** The values of the `json` crate the model distinguishes; numbers, booleans and arrays are kept as their display text. */
  datatype Json =
    | Null
    | Str(text: string)
    | Object(members: map<string, Json>)
    | OtherValue(display: string)

  /** `value[key]`: a missing member, or indexing something that is not an object, gives `Null`. */
  function Member(value: Json, key: string): (r: Json)
    ensures value.Object? && key in value.members ==> r == value.members[key]
    ensures !(value.Object? && key in value.members) ==> r == Null
  {
    if value.Object? && key in value.members then value.members[key] else Null
  }

  /** `value.to_string()`: a string prints without quotes, an object as its `dump`. */
  function DisplayJson(value: Json, dump: Json -> string): string {
    match value
    case Null => "null"
    case Str(text) => text
    case OtherValue(display) => display
    case Object(_) => dump(value)
  }

  /** The document `init` writes: `{"id": id}`. */
  function IdConfig(id: string): Json {
    Object(map["id" := Str(id)])
  }

  /**
   * `read_id`, in the order the code checks: the vault must exist and be a
   * directory, the id file must be readable, it must parse, and its "id"
   * must not be null. `parse` is `json::parse` and `dump` is `JsonValue::dump`.
   */
  function ReadId(nodes: map<string, Fs.Node>, config: VaultConfig, parse: string -> Option<Json>, dump: Json -> string): (r: Result<string, IoError>)
    ensures config.vault !in nodes ==> r == Err(IoError(NotFound, NOT_INITIALIZED))
    ensures config.vault in nodes && nodes[config.vault] != Fs.Dir ==> r == Err(IoError(InvalidInput, NOT_A_DIRECTORY))
    ensures r.Ok? ==> config.vault in nodes && nodes[config.vault] == Fs.Dir
    ensures config.vault in nodes && nodes[config.vault] == Fs.Dir ==>
      var read := Fs.ReadToString(nodes, IdPath(config.vault));
      && (read.Err? ==> r == Err(read.error))
      && (read.Ok? && parse(read.value).None? ==> r == Err(IoError(InvalidData, BAD_ID_FILE)))
      && (read.Ok? && parse(read.value).Some? && Member(parse(read.value).value, "id") == Null ==>
            r == Err(IoError(NotFound, NOT_INITIALIZED)))
      && (read.Ok? && parse(read.value).Some? && Member(parse(read.value).value, "id") != Null ==>
            r == Ok(DisplayJson(Member(parse(read.value).value, "id"), dump)))
  {
    if config.vault !in nodes then Err(IoError(NotFound, NOT_INITIALIZED))
    else if nodes[config.vault] != Fs.Dir then Err(IoError(InvalidInput, NOT_A_DIRECTORY))
    else
      match Fs.ReadToString(nodes, IdPath(config.vault))
      case Err(e) => Err(e)
      case Ok(text) =>
        match parse(text)
        case None => Err(IoError(InvalidData, BAD_ID_FILE))
        case Some(document) =>
          if Member(document, "id") == Null then Err(IoError(NotFound, NOT_INITIALIZED))
          else Ok(DisplayJson(Member(document, "id"), dump))
  }

  /** An id is read only from an existing id file whose document parses to a non-null "id". */
  lemma ReadIdOkMeansInitialized(nodes: map<string, Fs.Node>, config: VaultConfig, parse: string -> Option<Json>, dump: Json -> string)
    requires ReadId(nodes, config, parse, dump).Ok?
    ensures IdPath(config.vault) in nodes && nodes[IdPath(config.vault)].File?
    ensures parse(nodes[IdPath(config.vault)].data).Some?
    ensures Member(parse(nodes[IdPath(config.vault)].data).value, "id") != Null
  {
  }

  /** Every way of failing with `NotFound` other than a missing id file means the vault is not initialised. */
  lemma ReadIdNotFound(nodes: map<string, Fs.Node>, config: VaultConfig, parse: string -> Option<Json>, dump: Json -> string)
    requires ReadId(nodes, config, parse, dump).Err?
    requires ReadId(nodes, config, parse, dump).error.message == NOT_INITIALIZED
    requires IdPath(config.vault) in nodes
    ensures ReadId(nodes, config, parse, dump).error.kind == NotFound
    ensures config.vault !in nodes ||
      (nodes[IdPath(config.vault)].File? && parse(nodes[IdPath(config.vault)].data).Some? &&
       Member(parse(nodes[IdPath(config.vault)].data).value, "id") == Null)
  {
    assert NOT_INITIALIZED != NOT_A_DIRECTORY by { assert NOT_INITIALIZED[13] != NOT_A_DIRECTORY[13]; }
    assert NOT_INITIALIZED != BAD_ID_FILE by { assert NOT_INITIALIZED[0] != BAD_ID_FILE[0]; }
  }

  /** A vault is written as a plain directory name: not empty and without a trailing '/'. */
  predicate PlainDirName(vault: string) {
    vault != "" && !EndsWith(vault, "/")
  }

  /** The id file of a plain vault name sits directly inside it. */
  lemma IdPathInsideVault(vault: string)
    requires PlainDirName(vault)
    ensures IdPath(vault) == vault + "/" + ID_FILE
    ensures Fs.LastSlash(IdPath(vault)) == Some(|vault|)
    ensures IdPath(vault)[..|vault|] == vault
  {
    var p := vault + "/" + ID_FILE;
    assert !StartsWith(ID_FILE, "/") by { assert ID_FILE[0] == '.'; }
    assert p[..|p|] == p;
    IdPathLastSlash(vault, p, |p|);
  }

  /** Scanning back from `end`, the last '/' before it in `vault + "/" + ".rvault"` is at |vault|. */
  lemma {:induction false} IdPathLastSlash(vault: string, p: string, end: nat)
    requires p == vault + "/" + ID_FILE
    requires |vault| < end <= |p|
    ensures Fs.LastSlash(p[..end]) == Some(|vault|)
    decreases end
  {
    var s := p[..end];
    if end - 1 > |vault| {
      assert s[end - 1] == ID_FILE[end - 1 - |vault| - 1];
      assert s[end - 1] != '/' by {
        assert forall i :: 0 <= i < |ID_FILE| ==> ID_FILE[i] != '/';
      }
      assert s[..end - 1] == p[..end - 1];
      IdPathLastSlash(vault, p, end - 1);
    } else {
      assert s[end - 1] == '/';
    }
  }

  /** After `init` has written `{"id": id}` into a directory, `read_id` returns `id`, if parsing undoes dumping. */
  lemma ReadIdAfterWrite(nodes: map<string, Fs.Node>, config: VaultConfig, id: string, parse: string -> Option<Json>, dump: Json -> string)
    requires PlainDirName(config.vault)
    requires config.vault in nodes && nodes[config.vault] == Fs.Dir
    requires IdPath(config.vault) !in nodes || nodes[IdPath(config.vault)] != Fs.Dir
    requires parse(dump(IdConfig(id))) == Some(IdConfig(id))
    ensures Fs.WriteOn(nodes, IdPath(config.vault), dump(IdConfig(id))).Some?
    ensures ReadId(Fs.WriteOn(nodes, IdPath(config.vault), dump(IdConfig(id))).value, config, parse, dump) == Ok(id)
  {
    IdPathInsideVault(config.vault);
    assert IdPath(config.vault) != config.vault;
    Fs.WriteThenRead(nodes, IdPath(config.vault), dump(IdConfig(id)));
  }

  // ---------------------------------------------------------------------
  // extract
  // ---------------------------------------------------------------------

  /**
   * What `extract` ends with. `decrypt` is `decrypt_file`, `urlParses`
   * whether `TOTP::from_url_unchecked` accepts the text and `generate` what
   * `generate_current` returns for it.
   */
  function ExtractOutcome(name: Option<string>, config: VaultConfig, entries: seq<WalkEntry>, choice: Selection,
                          passphrase: Result<string, VaultError>,
                          decrypt: (string, Option<string>) -> Result<string, VaultError>,
                          urlParses: string -> bool, generate: string -> Result<string, string>): Outcome<Result<string, VaultError>>
    requires name.None? ==> PickerFits(config.vault, entries, choice)
  {
    match GetSecretPath(name, config, entries, choice)
    case Err(e) => Returned(Err(e))
    case Ok(path) =>
      match MaybePromptForPassword(config.askPassword, passphrase)
      case Panicked(m) => Panicked(m)
      case Returned(asked) =>
        match decrypt(path, asked)
        case Err(_) => Panicked("Failed to decrypt password.")
        case Ok(text) =>
          if !StartsWith(text, OTP_PREFIX) then Returned(Ok(text))
          else if !urlParses(text) then Panicked("Failed to parse OTP URL.")
          else match generate(text)
            case Err(_) => Panicked("Failed to generate OTP code.")
            case Ok(code) => Returned(Ok(code))
  }

  /**
   * A secret that is not an OTP URL is returned exactly as decrypted; one
   * that is becomes the generated code. `extract` only fails on its own by
   * passing on a failed path resolution.
   */
  lemma ExtractClassifies(name: Option<string>, config: VaultConfig, entries: seq<WalkEntry>, choice: Selection,
                          passphrase: Result<string, VaultError>,
                          decrypt: (string, Option<string>) -> Result<string, VaultError>,
                          urlParses: string -> bool, generate: string -> Result<string, string>,
                          text: string)
    requires name.None? ==> PickerFits(config.vault, entries, choice)
    requires GetSecretPath(name, config, entries, choice).Ok?
    requires MaybePromptForPassword(config.askPassword, passphrase).Returned?
    requires decrypt(GetSecretPath(name, config, entries, choice).value, MaybePromptForPassword(config.askPassword, passphrase).value) == Ok(text)
    ensures var o := ExtractOutcome(name, config, entries, choice, passphrase, decrypt, urlParses, generate);
      && (!StartsWith(text, OTP_PREFIX) ==> o == Returned(Ok(text)))
      && (StartsWith(text, OTP_PREFIX) && urlParses(text) && generate(text).Ok? ==> o == Returned(Ok(generate(text).value)))
      && (o.Returned? && o.value.Ok? ==> o.value.value == text || (StartsWith(text, OTP_PREFIX) && generate(text) == Ok(o.value.value)))
  {
  }

  /** `extract` fails with `Err` exactly when the path cannot be resolved. */
  lemma ExtractErrOnlyFromPath(name: Option<string>, config: VaultConfig, entries: seq<WalkEntry>, choice: Selection,
                               passphrase: Result<string, VaultError>,
                               decrypt: (string, Option<string>) -> Result<string, VaultError>,
                               urlParses: string -> bool, generate: string -> Result<string, string>)
    requires name.None? ==> PickerFits(config.vault, entries, choice)
    ensures var o := ExtractOutcome(name, config, entries, choice, passphrase, decrypt, urlParses, generate);
      (o.Returned? && o.value.Err?) <==> GetSecretPath(name, config, entries, choice).Err?
  {
  }

  /** `extract`, step by step: resolve, ask, decrypt, and replace an OTP URL by its code. */
  method Extract(name: Option<string>, config: VaultConfig, entries: seq<WalkEntry>, choice: Selection,
                 passphrase: Result<string, VaultError>,
                 decrypt: (string, Option<string>) -> Result<string, VaultError>,
                 urlParses: string -> bool, generate: string -> Result<string, string>)
    returns (outcome: Outcome<Result<string, VaultError>>)
    requires name.None? ==> PickerFits(config.vault, entries, choice)
    ensures outcome == ExtractOutcome(name, config, entries, choice, passphrase, decrypt, urlParses, generate)
  {
    var path := GetSecretPath(name, config, entries, choice);
    if path.Err? {
      return Returned(Err(path.error));
    }
    var asked := MaybePromptForPassword(config.askPassword, passphrase);
    if asked.Panicked? {
      return Panicked(asked.message);
    }
    var decrypted := Expect(decrypt(path.value, asked.value), "Failed to decrypt password.");
    if decrypted.Panicked? {
      return Panicked(decrypted.message);
    }
    var pw := decrypted.value;
    if StartsWith(pw, OTP_PREFIX) {
      if !urlParses(pw) {
        return Panicked("Failed to parse OTP URL.");
      }
      var code := Expect(generate(pw), "Failed to generate OTP code.");
      if code.Panicked? {
        return Panicked(code.message);
      }
      pw := code.value;
    }
    return Returned(Ok(pw));
  }

  // ---------------------------------------------------------------------
  // list
  // ---------------------------------------------------------------------

  /** What printing each name with `println!` writes: every name followed by a newline. */
  function Lines(names: seq<string>): string
    decreases |names|
  {
    if |names| == 0 then "" else Lines(names[..|names| - 1]) + names[|names| - 1] + "\n"
  }

  /** The output is the names joined by newlines, with a final newline. */
  lemma {:induction false} LinesJoin(names: seq<string>)
    ensures Lines(names) == Join(names + [""], "\n")
    decreases |names|
  {
    if |names| > 0 {
      var init := names[..|names| - 1];
      var last := names[|names| - 1];
      LinesJoin(init);
      assert names == init + [last];
      JoinSnoc(init, "\n", "");
      JoinSnoc(names, "\n", "");
      JoinSnoc(init, "\n", last);
    }
  }

  /** Reading the output back line by line gives the names, in order, then the empty rest after the last newline. */
  lemma ListOutputLines(names: seq<string>)
    requires forall i :: 0 <= i < |names| ==> '\n' !in names[i]
    ensures Split(Lines(names), '\n') == names + [""]
  {
    LinesJoin(names);
    SplitJoin(names + [""], '\n');
  }

  /** `list`: prints the name of every secret, one per line, in walk order. */
  method List(config: VaultConfig, entries: seq<WalkEntry>) returns (output: string)
    ensures output == Lines(ListedNames(config.vault, entries))
  {
    var secrets := ListPasswords(config.vault, entries);
    output := "";
    for i := 0 to |secrets|
      invariant output == Lines(secrets[..i])
    {
      assert secrets[..i + 1][..i] == secrets[..i];
      output := output + secrets[i] + "\n";
    }
    assert secrets[..|secrets|] == secrets;
  }

  // ---------------------------------------------------------------------
  // init, add, remove, show
  // ---------------------------------------------------------------------

  /** The nodes once `init` has made sure the vault exists, or None when creating it fails. */
  function PreparedVault(nodes: map<string, Fs.Node>, vault: string): Option<map<string, Fs.Node>> {
    if vault in nodes then Some(nodes) else Fs.CreateDirAllOn(nodes, vault)
  }

  /** The key `init` records: the id of the key picked from the secret keys gpg lists. */
  predicate KeyPickFits(listing: Result<seq<RawLine>, IoError>, choice: Selection) {
    listing.Ok? && |SecretKeys(listing.value)| > 0 ==> SelectionFits(choice, |SecretKeys(listing.value)|)
  }

  /**
   * `init`: creates the vault directory if it is missing, lets the user
   * pick one of the secret keys and writes `{"id": id}` to the id file.
   * `listing` is gpg's key listing and `choice` the user's pick.
   */
  method Init(fs: Fs.FileSystem, config: VaultConfig, listing: Result<seq<RawLine>, IoError>, choice: Selection, dump: Json -> string)
    returns (outcome: Outcome<()>)
    requires KeyPickFits(listing, choice)
    modifies fs
    ensures PreparedVault(old(fs.nodes), config.vault).None? ==>
      outcome == Panicked("Failed to create vault directory.") && fs.nodes == old(fs.nodes)
    ensures PreparedVault(old(fs.nodes), config.vault).Some? ==>
      var prepared := PreparedVault(old(fs.nodes), config.vault).value;
      if listing.Err? then outcome == Panicked("Failed to get secret keys.") && fs.nodes == prepared
      else match PickKey(SecretKeys(listing.value), choice)
        case Err(_) => outcome == Panicked("Failed to pick secret key.") && fs.nodes == prepared
        case Ok(id) =>
          match Fs.WriteOn(prepared, IdPath(config.vault), dump(IdConfig(id)))
          case None => outcome == Panicked("Failed to write ID file.") && fs.nodes == prepared
          case Some(written) => outcome == Returned(()) && fs.nodes == written
  {
    if !fs.Exists(config.vault) {
      var created := fs.CreateDirAll(config.vault);
      if created.Err? {
        return Panicked("Failed to create vault directory.");
      }
    }
    var keys := GetSecretKeys(listing);
    if keys.Err? {
      return Panicked("Failed to get secret keys.");
    }
    var chosen := Expect(PickKey(keys.value, choice), "Failed to pick secret key.");
    if chosen.Panicked? {
      return Panicked(chosen.message);
    }
    var idjson := dump(IdConfig(chosen.value));
    var written := fs.Write(IdPath(config.vault), idjson);
    if written.Err? {
      return Panicked("Failed to write ID file.");
    }
    return Returned(());
  }

  /** After a completed `init`, whether or not the vault existed before, `read_id` returns the picked key's id. */
  lemma InitThenReadId(nodes: map<string, Fs.Node>, config: VaultConfig, keys: seq<KeyIdName>, index: nat,
                       parse: string -> Option<Json>, dump: Json -> string)
    requires PlainDirName(config.vault)
    requires PreparedVault(nodes, config.vault).Some?
    requires PreparedVault(nodes, config.vault).value[config.vault] == Fs.Dir
    requires IdPath(config.vault) !in nodes || nodes[IdPath(config.vault)] != Fs.Dir
    requires index < |keys|
    requires parse(dump(IdConfig(keys[index].id))) == Some(IdConfig(keys[index].id))
    ensures var prepared := PreparedVault(nodes, config.vault).value;
      var id := PickKey(keys, Chose(index)).value;
      && Fs.WriteOn(prepared, IdPath(config.vault), dump(IdConfig(id))).Some?
      && ReadId(Fs.WriteOn(prepared, IdPath(config.vault), dump(IdConfig(id))).value, config, parse, dump) == Ok(keys[index].id)
  {
    var prepared := PreparedVault(nodes, config.vault).value;
    Fs.CreateDirAllEffect(nodes, config.vault);
    IdPathInsideVault(config.vault);
    assert IdPath(config.vault) !in Fs.DirChain(config.vault) by {
      assert forall d :: d in Fs.DirChain(config.vault) ==> |d| <= |config.vault|;
    }
    ReadIdAfterWrite(prepared, config, keys[index].id, parse, dump);
  }

  /** `write_password`: gpg encrypts for the fixed recipient, then the ciphertext is written to `path`. */
  method WritePassword(fs: Fs.FileSystem, path: string, password: string, encrypt: (string, string) -> Result<string, VaultError>)
    returns (r: Result<(), VaultError>)
    modifies fs
    ensures encrypt(RECIPIENT, password).Err? ==> r == Err(encrypt(RECIPIENT, password).error) && fs.nodes == old(fs.nodes)
    ensures encrypt(RECIPIENT, password).Ok? ==>
      var ciphertext := encrypt(RECIPIENT, password).value;
      (r.Ok? <==> Fs.WriteOn(old(fs.nodes), path, ciphertext).Some?) &&
      fs.nodes == (if r.Ok? then Fs.WriteOn(old(fs.nodes), path, ciphertext).value else old(fs.nodes))
  {
    var ciphertext := encrypt(RECIPIENT, password);
    if ciphertext.Err? {
      return Err(ciphertext.error);
    }
    var written := fs.Write(path, ciphertext.value);
    if written.Err? {
      return Err(Io(written.error));
    }
    return Ok(());
  }

  /**
   * `add`: the name is the one supplied, unchecked, or the first entry the
   * validator accepts; the password prompt's answer is encrypted and stored
   * at `vault.join(name + ".gpg")`.
   */
  method Add(fs: Fs.FileSystem, config: VaultConfig, name: Option<string>, typed: seq<string>,
             password: Result<string, VaultError>, encrypt: (string, string) -> Result<string, VaultError>)
    returns (outcome: Outcome<()>)
    modifies fs
    ensures name.None? && PromptForFilename(typed).Err? ==>
      outcome == Panicked("Failed to prompt for filename.") && fs.nodes == old(fs.nodes)
    ensures name.Some? || PromptForFilename(typed).Ok? ==>
      var chosen := if name.Some? then name.value else PromptForFilename(typed).value;
      var path := SecretPath(config.vault, chosen);
      if password.Err? then outcome == Panicked("Failed to prompt for password.") && fs.nodes == old(fs.nodes)
      else if encrypt(RECIPIENT, password.value).Err? then
        outcome == Panicked("Failed to write password.") && fs.nodes == old(fs.nodes)
      else match Fs.WriteOn(old(fs.nodes), path, encrypt(RECIPIENT, password.value).value)
        case None => outcome == Panicked("Failed to write password.") && fs.nodes == old(fs.nodes)
        case Some(written) => outcome == Returned(()) && fs.nodes == written
  {
    var chosen: string;
    match name {
      case Some(n) =>
        chosen := n;
      case None =>
        var prompted := Expect(PromptForFilename(typed), "Failed to prompt for filename.");
        if prompted.Panicked? {
          return Panicked(prompted.message);
        }
        chosen := prompted.value;
    }
    var path := SecretPath(config.vault, chosen);
    var pw := Expect(password, "Failed to prompt for password.");
    if pw.Panicked? {
      return Panicked(pw.message);
    }
    var stored := WritePassword(fs, path, pw.value, encrypt);
    if stored.Err? {
      return Panicked("Failed to write password.");
    }
    return Returned(());
  }

  /** `remove`: deletes exactly the file `get_secret_path` resolves, and nothing else. */
  method Remove(fs: Fs.FileSystem, config: VaultConfig, name: Option<string>, entries: seq<WalkEntry>, choice: Selection)
    returns (outcome: Outcome<()>)
    requires name.None? ==> PickerFits(config.vault, entries, choice)
    modifies fs
    ensures GetSecretPath(name, config, entries, choice).Err? ==>
      outcome == Panicked("Failed to get secret path.") && fs.nodes == old(fs.nodes)
    ensures GetSecretPath(name, config, entries, choice).Ok? ==>
      var path := GetSecretPath(name, config, entries, choice).value;
      match Fs.RemoveFileOn(old(fs.nodes), path)
      case None => outcome == Panicked("Failed to remove file.") && fs.nodes == old(fs.nodes)
      case Some(rest) => outcome == Returned(()) && fs.nodes == rest
  {
    var path := Expect(GetSecretPath(name, config, entries, choice), "Failed to get secret path.");
    if path.Panicked? {
      return Panicked(path.message);
    }
    var removed := fs.RemoveFile(path.value);
    if removed.Err? {
      return Panicked("Failed to remove file.");
    }
    return Returned(());
  }

  /** `show`: prints the extracted secret on its own line; a failed extraction aborts. */
  method Show(name: Option<string>, config: VaultConfig, entries: seq<WalkEntry>, choice: Selection,
              passphrase: Result<string, VaultError>,
              decrypt: (string, Option<string>) -> Result<string, VaultError>,
              urlParses: string -> bool, generate: string -> Result<string, string>)
    returns (outcome: Outcome<string>)
    requires name.None? ==> PickerFits(config.vault, entries, choice)
    ensures match ExtractOutcome(name, config, entries, choice, passphrase, decrypt, urlParses, generate)
      case Panicked(m) => outcome == Panicked(m)
      case Returned(Err(_)) => outcome == Panicked("Failed to extract password.")
      case Returned(Ok(pw)) => outcome == Returned(pw + "\n")
  {
    var extracted := Extract(name, config, entries, choice, passphrase, decrypt, urlParses, generate);
    if extracted.Panicked? {
      return Panicked(extracted.message);
    }
    var pw := Expect(extracted.value, "Failed to extract password.");
    if pw.Panicked? {
      return Panicked(pw.message);
    }
    return Returned(pw.value + "\n");
  }

  /** `copy`: the extracted secret goes to the clipboard for ten seconds; a failed extraction aborts first. */
  method Copy(clipboard: SystemClipboard, name: Option<string>, config: VaultConfig, entries: seq<WalkEntry>, choice: Selection,
              passphrase: Result<string, VaultError>,
              decrypt: (string, Option<string>) -> Result<string, VaultError>,
              urlParses: string -> bool, generate: string -> Result<string, string>,
              created: bool, setOk: bool, clearOk: bool, elapsed: nat -> nat, polls: nat -> Poll)
    returns (outcome: Outcome<()>)
    requires name.None? ==> PickerFits(config.vault, entries, choice)
    requires StrictlyIncreasing(elapsed)
    modifies clipboard
    ensures match ExtractOutcome(name, config, entries, choice, passphrase, decrypt, urlParses, generate)
      case Panicked(m) =>
        outcome == Panicked(m) && clipboard.contents == old(clipboard.contents) &&
        clipboard.clearCalls == old(clipboard.clearCalls)
      case Returned(Err(_)) =>
        outcome == Panicked("Failed to extract password.") && clipboard.contents == old(clipboard.contents) &&
        clipboard.clearCalls == old(clipboard.clearCalls)
      case Returned(Ok(pw)) =>
        && (!(created && setOk) ==>
              outcome == Returned(()) && clipboard.contents == old(clipboard.contents) &&
              clipboard.clearCalls == old(clipboard.clearCalls))
        && (created && setOk && WaitEnd(elapsed, polls, 0).1 == ReadFailed ==>
              outcome == Panicked(UNWRAP_FAILED) && clipboard.contents == Some(pw) &&
              clipboard.clearCalls == old(clipboard.clearCalls))
        && (created && setOk && WaitEnd(elapsed, polls, 0).1 != ReadFailed ==>
              clipboard.clearCalls == old(clipboard.clearCalls) + 1 &&
              clipboard.contents == (if clearOk then None else Some(pw)) &&
              outcome == (if clearOk then Returned(()) else Panicked(UNWRAP_FAILED)))
  {
    var extracted := Extract(name, config, entries, choice, passphrase, decrypt, urlParses, generate);
    if extracted.Panicked? {
      return Panicked(extracted.message);
    }
    var pw := Expect(extracted.value, "Failed to extract password.");
    if pw.Panicked? {
      return Panicked(pw.message);
    }
    var waits;
    outcome, waits := CopyToClipboardAndWait(clipboard, pw.value, created, setOk, clearOk, elapsed, polls);
  }
}
