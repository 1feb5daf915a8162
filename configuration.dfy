/**
 * ConfigurationHelper: resolves the blob container name and the storage
 * connection string through two secret lookups, and reads the upload size
 * limit from the application settings.
 */
module Configuration {
  import opened Utilities
  import opened Text
  import Int32

  const ContainerNameSetting := "BlobStorage:ContainerName"
  const ConnectionStringSecretNameSetting := "BlobStorage:ConnectionStringSecretName"
  const MaxFileSizeSetting := "FileSettings:MaxFileSizeMB"

  /**
   * What KeyVaultHelper.GetSecretAsync yields for one secret name: the
   * secret's value (None for null), or the message of the exception it
   * rethrows (secret not found, vault unreachable, access denied, ...).
   */
  datatype SecretOutcome = Secret(value: Option<string>) | LookupFailed(message: string)

  /**
   * The helper's read-only collaborators: the application settings, where
   * an absent key reads as null, and the secret store.
   */
  datatype ConfigurationHelper = ConfigurationHelper(settings: map<string, string>, vault: string -> SecretOutcome)

  /** The (ContainerName, ConnectionString) pair. */
  datatype BlobConfig = BlobConfig(containerName: string, connectionString: string)

  /**
   * What GetConfigurationAsync returns (None for null), together with the
   * secret names it asked the vault for, in the order it asked.
   */
  datatype Resolution = Resolution(config: Option<BlobConfig>, lookups: seq<string>)

  /** _configuration[key]. */
  function Setting(helper: ConfigurationHelper, key: string): Option<string> {
    if key in helper.settings then Some(helper.settings[key]) else None
  }

  /** Both secret names are present and non-empty in the settings. */
  predicate SecretNamesConfigured(helper: ConfigurationHelper) {
    !IsNullOrEmpty(Setting(helper, ContainerNameSetting)) &&
    !IsNullOrEmpty(Setting(helper, ConnectionStringSecretNameSetting))
  }

  /** A lookup that returned a non-null, non-empty value. */
  predicate Usable(outcome: SecretOutcome) {
    outcome.Secret? && !IsNullOrEmpty(outcome.value)
  }

  /** GetConfigurationAsync. */
  function GetConfiguration(helper: ConfigurationHelper): (r: Resolution)
    // a missing secret name: null, and the vault is never asked
    ensures !SecretNamesConfigured(helper) ==> r == Resolution(None, [])
    // the container-name secret is looked up first; a failure there ends the resolution
    ensures SecretNamesConfigured(helper) ==>
      var cn := Setting(helper, ContainerNameSetting).value;
      var sn := Setting(helper, ConnectionStringSecretNameSetting).value;
      && (helper.vault(cn).LookupFailed? ==> r == Resolution(None, [cn]))
      && (helper.vault(cn).Secret? ==> r.lookups == [cn, sn])
    // a pair comes back exactly when both lookups give non-empty values, and it is those values
    ensures r.config.Some? <==>
      SecretNamesConfigured(helper) &&
      Usable(helper.vault(Setting(helper, ContainerNameSetting).value)) &&
      Usable(helper.vault(Setting(helper, ConnectionStringSecretNameSetting).value))
    ensures r.config.Some? ==>
      r.config.value == BlobConfig(
        helper.vault(Setting(helper, ContainerNameSetting).value).value.value,
        helper.vault(Setting(helper, ConnectionStringSecretNameSetting).value).value.value)
  {
    var containerNameSecretName := Setting(helper, ContainerNameSetting);
    var connectionStringSecretName := Setting(helper, ConnectionStringSecretNameSetting);
    if IsNullOrEmpty(containerNameSecretName) || IsNullOrEmpty(connectionStringSecretName) then
      Resolution(None, [])
    else
      var cn, sn := containerNameSecretName.value, connectionStringSecretName.value;
      match helper.vault(cn)
      case LookupFailed(_) => Resolution(None, [cn])
      case Secret(containerName) =>
        match helper.vault(sn)
        case LookupFailed(_) => Resolution(None, [cn, sn])
        case Secret(connectionString) =>
          if IsNullOrEmpty(containerName) || IsNullOrEmpty(connectionString) then
            Resolution(None, [cn, sn])
          else
            Resolution(Some(BlobConfig(containerName.value, connectionString.value)), [cn, sn])
  }

  /**
   * maxFileSizeMB * 1024 * 1024 evaluated in int: each multiplication wraps
   * modulo 2^32 before the product is widened to long.
   */
  function MaxFileSizeBytes(mb: int): (r: int)
    requires Int32.InRange(mb)
    ensures Int32.InRange(r) && Int32.Congruent(mb * 1048576, r)
    ensures -2048 <= mb <= 2047 ==> r == mb * 1048576
  {
    var kb := Int32.Wrap(mb * 1024);
    var bytes := Int32.Wrap(kb * 1024);
    Int32.CongruentScaleAdd(mb * 1024, kb, 1024, 0, 0);
    Int32.CongruentTransitive(mb * 1048576, kb * 1024, bytes);
    bytes
  }

  /** GetMaxFileSize: int.Parse of the setting (which may throw), then the conversion to bytes. */
  function GetMaxFileSize(helper: ConfigurationHelper): (r: Result<int, Int32.ParseError>)
    ensures MaxFileSizeSetting !in helper.settings ==> r == Err(Int32.ArgumentNull)
    ensures r.Ok? ==> Int32.InRange(r.value)
  {
    match Int32.Parse(Setting(helper, MaxFileSizeSetting))
    case Err(e) => Err(e)
    case Ok(mb) => Ok(MaxFileSizeBytes(mb))
  }

  /** A setting written as a megabyte count from -2048 to 2047 yields exactly that many mebibytes. */
  lemma MaxFileSizeFromSetting(helper: ConfigurationHelper, mb: int)
    requires -2048 <= mb <= 2047
    requires Setting(helper, MaxFileSizeSetting) == Some(Int32.Format(mb))
    ensures GetMaxFileSize(helper) == Ok(mb * 1048576)
  {
    Int32.ParseFormat(mb);
  }

  /**
   * A setting that is not white space, an optional sign, digits and white
   * space ("20MB", "1.5", "2 048", "0x10") makes GetMaxFileSize throw a
   * FormatException.
   */
  lemma MaxFileSizeNonNumeric(helper: ConfigurationHelper)
    requires MaxFileSizeSetting in helper.settings
    requires !Int32.Numeric(helper.settings[MaxFileSizeSetting])
    ensures GetMaxFileSize(helper) == Err(Int32.FormatError)
  {
  }

  /**
   * A numeric setting yields the byte limit of the number it denotes, or an
   * OverflowException when that number is not an int.
   */
  lemma MaxFileSizeOfNumeric(helper: ConfigurationHelper, lead: string, sign: string, digits: string, trail: string)
    requires MaxFileSizeSetting in helper.settings
    requires Int32.NumericParts(helper.settings[MaxFileSizeSetting], lead, sign, digits, trail)
    ensures var mb := Int32.SignedValue(sign, digits);
      GetMaxFileSize(helper) ==
        if Int32.InRange(mb) then Ok(MaxFileSizeBytes(mb)) else Err(Int32.OverflowError)
  {
    Int32.ParseNumeric(helper.settings[MaxFileSizeSetting], lead, sign, digits, trail);
  }

  /** Below the overflow a larger megabyte count gives a larger byte limit. */
  lemma MaxFileSizeMonotone(a: int, b: int)
    requires 0 <= a < b <= 2047
    ensures MaxFileSizeBytes(a) < MaxFileSizeBytes(b)
  {
  }

  /** From 2048 MB to 4095 MB the product wraps to a negative limit, 2^32 below the intended one. */
  lemma {:induction false} MaxFileSizeWraps(mb: int)
    requires 2048 <= mb <= 4095
    ensures MaxFileSizeBytes(mb) == mb * 1048576 - Int32.Modulus < 0
  {
    var r := MaxFileSizeBytes(mb);
    var expected := mb * 1048576 - Int32.Modulus;
    assert Int32.Wrap(mb * 1024) == mb * 1024;
    assert Int32.Congruent(mb * 1048576, expected) by {
      Int32.MultipleIsCongruent(1);
    }
    Int32.CongruentTransitive(expected, mb * 1048576, r);
    Int32.CongruentInRangeEqual(expected, r);
  }
}
