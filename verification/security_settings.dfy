/** `SecuritySettingServiceImpl`: security policy settings stored per tenant
    or globally, read through a per-scope cache, resolved with the priority
    tenant > global > caller default > built-in default, and the password,
    login and token policies derived from them.

    The `settings_security` table is a map from scope to that scope's rows,
    keyed by setting key (the code treats (tenant, key) as unique). Column
    values may be null, so they are `Option<string>`. Encryption is the
    `EncryptionUtil` bean, passed in as functions: `encrypt` maps a column
    value to a column value, `decrypt` returns `None` where it throws. */
module SecuritySettings {
  import opened Wrappers
  import opened Text
  import opened Tenancy

  /** One stored row: the column value and whether it holds ciphertext. */
  datatype Row = Row(value: Option<string>, encrypted: bool)

  type Rows = map<string, Row>
  type Table = map<Scope, Rows>

  /** A cached scope: setting key to plain value. */
  type Snapshot = map<string, Option<string>>

  /** The service state: the table and the cache keyed by "GLOBAL" or a tenant id. */
  datatype Service = Service(table: Table, cache: map<string, Snapshot>)

  const GlobalCacheKey: string := "GLOBAL"

  /** Built-in defaults, consulted only when the caller passes no default. */
  const Defaults: map<string, string> := map[
    "PASSWORD_MIN_LENGTH" := "8",
    "PASSWORD_REQUIRE_UPPERCASE" := "true",
    "PASSWORD_REQUIRE_LOWERCASE" := "true",
    "PASSWORD_REQUIRE_NUMBER" := "true",
    "PASSWORD_REQUIRE_SPECIAL" := "true",
    "MAX_LOGIN_ATTEMPTS" := "5",
    "ACCOUNT_LOCK_DURATION_MINUTES" := "15",
    "JWT_ACCESS_TOKEN_EXPIRY_MINUTES" := "60",
    "JWT_REFRESH_TOKEN_EXPIRY_DAYS" := "30"]

  function CacheKey(tenantId: Option<string>): string {
    tenantId.GetOr(GlobalCacheKey)
  }

  /** The scope a cache slot holds when it was filled by a caller whose tenant id is not "GLOBAL". */
  function ScopeOfCacheKey(ck: string): Scope {
    if ck == GlobalCacheKey then Global else Tenant(ck)
  }

  function RowsOf(table: Table, scope: Scope): Rows {
    if scope in table then table[scope] else map[]
  }

  /** The value the cache loader keeps for a row: decrypted when encrypted
      and non-null, the stored text unchanged when decryption fails. */
  function Reveal(row: Row, decrypt: string -> Option<string>): (v: Option<string>)
    ensures !row.encrypted ==> v == row.value
    ensures v.None? ==> row.value.None?
  {
    if row.encrypted && row.value.Some? then
      match decrypt(row.value.value)
      case Some(plain) => Some(plain)
      case None => row.value
    else row.value
  }

  /** `loadSettingsIntoCache` for one scope's rows. */
  function Load(rows: Rows, decrypt: string -> Option<string>): (m: Snapshot)
    ensures m.Keys == rows.Keys
    ensures forall k :: k in rows ==> m[k] == Reveal(rows[k], decrypt)
  {
    map k | k in rows :: Reveal(rows[k], decrypt)
  }

  /** Every cache slot holds what loading its scope from the table gives now. */
  ghost predicate Coherent(svc: Service, decrypt: string -> Option<string>) {
    forall ck :: ck in svc.cache ==> svc.cache[ck] == Load(RowsOf(svc.table, ScopeOfCacheKey(ck)), decrypt)
  }

  /** `getCachedSettings`: the slot's snapshot, loading the scope on a miss. */
  function GetCached(svc: Service, tenantId: Option<string>, decrypt: string -> Option<string>): (r: (Snapshot, Service))
    ensures r.1.table == svc.table
    ensures CacheKey(tenantId) in r.1.cache && r.1.cache[CacheKey(tenantId)] == r.0
    ensures r.1.cache.Keys == svc.cache.Keys + {CacheKey(tenantId)}
    ensures forall ck :: ck in svc.cache ==> r.1.cache[ck] == svc.cache[ck]
    ensures CacheKey(tenantId) !in svc.cache ==> r.0 == Load(RowsOf(svc.table, ScopeOf(tenantId)), decrypt)
  {
    var ck := CacheKey(tenantId);
    if ck in svc.cache then (svc.cache[ck], svc)
    else
      var snap := Load(RowsOf(svc.table, ScopeOf(tenantId)), decrypt);
      (snap, svc.(cache := svc.cache[ck := snap]))
  }

  /** The default used when neither the tenant nor the global rows hold the key. */
  function Fallback(key: string, default: Option<string>): string {
    if default.Some? then default.value
    else if key in Defaults then Defaults[key]
    else ""
  }

  /** Reference resolution straight from the table, with no cache:
      tenant row, else global row, else the caller's default, else the
      built-in default, else "". A null tenant never looks at tenant rows. */
  function EffectiveValue(table: Table, tenantId: Option<string>, key: string, default: Option<string>,
                          decrypt: string -> Option<string>): (v: Option<string>)
    ensures tenantId.Some? && key in RowsOf(table, Tenant(tenantId.value)) ==>
              v == Reveal(RowsOf(table, Tenant(tenantId.value))[key], decrypt)
    ensures (tenantId.None? || key !in RowsOf(table, Tenant(tenantId.value))) && key in RowsOf(table, Global) ==>
              v == Reveal(RowsOf(table, Global)[key], decrypt)
    ensures (tenantId.None? || key !in RowsOf(table, Tenant(tenantId.value))) && key !in RowsOf(table, Global) ==>
              v == Some(Fallback(key, default))
  {
    var tenantRows := if tenantId.Some? then RowsOf(table, Tenant(tenantId.value)) else map[];
    if key in tenantRows then Reveal(tenantRows[key], decrypt)
    else if key in RowsOf(table, Global) then Reveal(RowsOf(table, Global)[key], decrypt)
    else Some(Fallback(key, default))
  }

  /** `getSettingValue`: the resolved value and the service with any cache slots it filled. */
  function GetSettingValue(svc: Service, tenantId: Option<string>, key: string, default: Option<string>,
                           decrypt: string -> Option<string>): (r: (Option<string>, Service))
    ensures r.1.table == svc.table
  {
    var (tenantMap, s1) := if tenantId.Some? then GetCached(svc, tenantId, decrypt) else (map[], svc);
    if tenantId.Some? && key in tenantMap then (tenantMap[key], s1)
    else
      var (globalMap, s2) := GetCached(s1, None, decrypt);
      if key in globalMap then (globalMap[key], s2)
      else (Some(Fallback(key, default)), s2)
  }

  /** Filling a slot keeps the cache coherent, provided the tenant id is not
      the literal "GLOBAL" (which would share the global slot). */
  lemma GetCachedKeepsCoherent(svc: Service, tenantId: Option<string>, decrypt: string -> Option<string>)
    requires Coherent(svc, decrypt)
    requires tenantId != Some(GlobalCacheKey)
    ensures Coherent(GetCached(svc, tenantId, decrypt).1, decrypt)
    ensures GetCached(svc, tenantId, decrypt).0 == Load(RowsOf(svc.table, ScopeOf(tenantId)), decrypt)
  {
    assert ScopeOfCacheKey(CacheKey(tenantId)) == ScopeOf(tenantId);
  }

  /** The cache is transparent: on a coherent cache, `getSettingValue`
      answers what resolving against the table directly answers, and leaves
      the cache coherent. */
  lemma {:induction false} GetSettingValueMatchesTable(svc: Service, tenantId: Option<string>, key: string,
                                                        default: Option<string>, decrypt: string -> Option<string>)
    requires Coherent(svc, decrypt)
    requires tenantId != Some(GlobalCacheKey)
    ensures GetSettingValue(svc, tenantId, key, default, decrypt).0 == EffectiveValue(svc.table, tenantId, key, default, decrypt)
    ensures Coherent(GetSettingValue(svc, tenantId, key, default, decrypt).1, decrypt)
  {
    var s1 := svc;
    if tenantId.Some? {
      GetCachedKeepsCoherent(svc, tenantId, decrypt);
      s1 := GetCached(svc, tenantId, decrypt).1;
    }
    GetCachedKeepsCoherent(s1, None, decrypt);
  }

  // ---- updates -----------------------------------------------------------

  /** Keys whose values are stored encrypted. */
  predicate EncryptsKey(key: string) {
    Contains(key, "SECRET") || Contains(key, "KEY")
  }

  function StoredRow(key: string, value: Option<string>, encrypt: Option<string> -> Option<string>): Row {
    if EncryptsKey(key) then Row(encrypt(value), true) else Row(value, false)
  }

  /** `updateSettings`: every submitted key is written to the scope (created
      or overwritten), encrypted exactly when its name contains "SECRET" or
      "KEY"; unsubmitted keys and other scopes are untouched; only the
      scope's own cache slot is dropped. */
  function UpdateSettings(svc: Service, tenantId: Option<string>, newSettings: map<string, Option<string>>,
                          encrypt: Option<string> -> Option<string>): (r: Service)
    ensures forall sc :: sc != ScopeOf(tenantId) ==> RowsOf(r.table, sc) == RowsOf(svc.table, sc)
    ensures RowsOf(r.table, ScopeOf(tenantId)).Keys == RowsOf(svc.table, ScopeOf(tenantId)).Keys + newSettings.Keys
    ensures forall k :: k in newSettings ==>
              RowsOf(r.table, ScopeOf(tenantId))[k].encrypted == EncryptsKey(k)
              && RowsOf(r.table, ScopeOf(tenantId))[k].value == (if EncryptsKey(k) then encrypt(newSettings[k]) else newSettings[k])
    ensures forall k :: k in RowsOf(svc.table, ScopeOf(tenantId)) && k !in newSettings ==>
              RowsOf(r.table, ScopeOf(tenantId))[k] == RowsOf(svc.table, ScopeOf(tenantId))[k]
    ensures r.cache == svc.cache - {CacheKey(tenantId)}
  {
    var scope := ScopeOf(tenantId);
    var before := RowsOf(svc.table, scope);
    var after := map k | k in before.Keys + newSettings.Keys ::
                   if k in newSettings then StoredRow(k, newSettings[k], encrypt) else before[k];
    Service(svc.table[scope := after], svc.cache - {CacheKey(tenantId)})
  }

  /** An update keeps a coherent cache coherent, for any tenant id. */
  lemma UpdateKeepsCoherent(svc: Service, tenantId: Option<string>, newSettings: map<string, Option<string>>,
                            encrypt: Option<string> -> Option<string>, decrypt: string -> Option<string>)
    requires Coherent(svc, decrypt)
    ensures Coherent(UpdateSettings(svc, tenantId, newSettings, encrypt), decrypt)
  {
    var r := UpdateSettings(svc, tenantId, newSettings, encrypt);
    forall ck | ck in r.cache
      ensures r.cache[ck] == Load(RowsOf(r.table, ScopeOfCacheKey(ck)), decrypt)
    {
      assert ScopeOfCacheKey(ck) != ScopeOf(tenantId);
    }
  }

  /** `encrypt` and `decrypt` undo each other (null stays null). */
  ghost predicate RoundTrips(encrypt: Option<string> -> Option<string>, decrypt: string -> Option<string>) {
    encrypt(None) == None
    && forall p: string :: encrypt(Some(p)).Some? && decrypt(encrypt(Some(p)).value) == Some(p)
  }

  /** Read after write: once a tenant (or the global scope) saves a key, the
      next read for that tenant returns the saved plain value. */
  lemma ReadAfterUpdate(svc: Service, tenantId: Option<string>, newSettings: map<string, Option<string>>, key: string,
                        default: Option<string>, encrypt: Option<string> -> Option<string>,
                        decrypt: string -> Option<string>)
    requires Coherent(svc, decrypt) && RoundTrips(encrypt, decrypt)
    requires tenantId != Some(GlobalCacheKey)
    requires key in newSettings
    ensures GetSettingValue(UpdateSettings(svc, tenantId, newSettings, encrypt), tenantId, key, default, decrypt).0
            == newSettings[key]
  {
    var r := UpdateSettings(svc, tenantId, newSettings, encrypt);
    UpdateKeepsCoherent(svc, tenantId, newSettings, encrypt, decrypt);
    GetSettingValueMatchesTable(r, tenantId, key, default, decrypt);
    if EncryptsKey(key) && newSettings[key].Some? {
      assert decrypt(encrypt(Some(newSettings[key].value)).value) == newSettings[key];
    }
  }

  /** A read without a tenant sees only global rows: two tables that agree
      on the global scope answer every global read alike. */
  lemma GlobalReadIgnoresTenants(t1: Table, t2: Table, key: string, default: Option<string>,
                                 decrypt: string -> Option<string>)
    requires RowsOf(t1, Global) == RowsOf(t2, Global)
    ensures EffectiveValue(t1, None, key, default, decrypt) == EffectiveValue(t2, None, key, default, decrypt)
  {
  }

  // ---- policies ----------------------------------------------------------

  /** `Integer.parseInt` on a possibly-null value; `None` where it throws. */
  function ParseIntOrNull(v: Option<string>): Option<int> {
    if v.Some? then ParseInt(v.value) else None
  }

  function ParseLongOrNull(v: Option<string>): Option<int> {
    if v.Some? then ParseLong(v.value) else None
  }

  /** `Boolean.parseBoolean`, which reads null as false. */
  function ParseBooleanOrNull(v: Option<string>): bool {
    v.Some? && ParseBoolean(v.value)
  }

  /** The five resolved password settings, as the raw strings the getters return. */
  datatype PasswordPolicy = PasswordPolicy(minLength: Option<string>, requireUpper: Option<string>,
                                           requireLower: Option<string>, requireNumber: Option<string>,
                                           requireSpecial: Option<string>)

  function PolicyOf(table: Table, tenantId: Option<string>, decrypt: string -> Option<string>): PasswordPolicy {
    PasswordPolicy(
      EffectiveValue(table, tenantId, "PASSWORD_MIN_LENGTH", Some("8"), decrypt),
      EffectiveValue(table, tenantId, "PASSWORD_REQUIRE_UPPERCASE", Some("true"), decrypt),
      EffectiveValue(table, tenantId, "PASSWORD_REQUIRE_LOWERCASE", Some("true"), decrypt),
      EffectiveValue(table, tenantId, "PASSWORD_REQUIRE_NUMBER", Some("true"), decrypt),
      EffectiveValue(table, tenantId, "PASSWORD_REQUIRE_SPECIAL", Some("true"), decrypt))
  }

  /** The character classes of the four regular expressions. */
  datatype CharClass = UpperCase | LowerCase | Digit | Special

  const SpecialChars: string := "!@#$%^&*(),.?\":{}|<>"

  predicate InClass(c: char, cls: CharClass) {
    match cls
    case UpperCase => 'A' <= c <= 'Z'
    case LowerCase => 'a' <= c <= 'z'
    case Digit => '0' <= c <= '9'
    case Special => c in SpecialChars
  }

  /** Some character of `s` is in `cls`. */
  ghost predicate HasClass(s: string, cls: CharClass) {
    exists i :: 0 <= i < |s| && InClass(s[i], cls)
  }

  /** `Pattern.compile("[...]").matcher(s).find()`: a left-to-right scan. */
  function Find(s: string, cls: CharClass): (found: bool)
    ensures found <==> HasClass(s, cls)
  {
    if |s| == 0 then false
    else if InClass(s[0], cls) then true
    else
      var rest := Find(s[1..], cls);
      assert HasClass(s[1..], cls) ==> HasClass(s, cls) by {
        if HasClass(s[1..], cls) {
          var i :| 0 <= i < |s[1..]| && InClass(s[1..][i], cls);
          assert InClass(s[i + 1], cls);
        }
      }
      rest
  }

  /** Why `validatePassword` rejects a password, in the order it checks. */
  datatype PasswordError =
    | BadMinLength          // the minimum length setting is not an int (NumberFormatException)
    | TooShort(minLength: int)
    | NoUppercase
    | NoLowercase
    | NoNumber
    | NoSpecial

  /** The `IllegalArgumentException` text for each policy violation. */
  function PasswordErrorMessage(e: PasswordError): string
    requires !e.BadMinLength?
  {
    match e
    case TooShort(n) => "Password must be at least " + IntToString(n) + " characters long."
    case NoUppercase => "Password must contain at least one uppercase letter."
    case NoLowercase => "Password must contain at least one lowercase letter."
    case NoNumber => "Password must contain at least one number."
    case NoSpecial => "Password must contain at least one special character."
  }

  /** A password meets a policy: the minimum parses, the UTF-16 length
      reaches it, and every enabled class occurs. */
  ghost predicate Complies(password: string, p: PasswordPolicy) {
    ParseIntOrNull(p.minLength).Some?
    && Utf16Length(password) >= ParseIntOrNull(p.minLength).value
    && (ParseBooleanOrNull(p.requireUpper) ==> HasClass(password, UpperCase))
    && (ParseBooleanOrNull(p.requireLower) ==> HasClass(password, LowerCase))
    && (ParseBooleanOrNull(p.requireNumber) ==> HasClass(password, Digit))
    && (ParseBooleanOrNull(p.requireSpecial) ==> HasClass(password, Special))
  }

  /** The minimum length parses and the password reaches it. */
  predicate LengthPasses(password: string, p: PasswordPolicy) {
    ParseIntOrNull(p.minLength).Some? && Utf16Length(password) >= ParseIntOrNull(p.minLength).value
  }

  /** A character-class check passes: the setting does not require the
      class, or the password contains it. */
  ghost predicate ClassPasses(required: Option<string>, password: string, c: CharClass) {
    ParseBooleanOrNull(required) ==> HasClass(password, c)
  }

  /** `validatePassword`: `None` when the password is accepted, otherwise
      the first failing check, in the order length, upper case, lower
      case, digit, special character. */
  function ValidatePassword(password: string, p: PasswordPolicy): (r: Option<PasswordError>)
    ensures r.None? <==> Complies(password, p)
    ensures r == Some(BadMinLength) <==> ParseIntOrNull(p.minLength).None?
    ensures r.Some? && r.value.TooShort? <==>
              ParseIntOrNull(p.minLength).Some? && Utf16Length(password) < ParseIntOrNull(p.minLength).value
    ensures r.Some? && r.value.TooShort? ==> r.value.minLength == ParseIntOrNull(p.minLength).value
    ensures r == Some(NoUppercase) <==> LengthPasses(password, p) && !ClassPasses(p.requireUpper, password, UpperCase)
    ensures r == Some(NoLowercase) <==>
              && LengthPasses(password, p) && ClassPasses(p.requireUpper, password, UpperCase)
              && !ClassPasses(p.requireLower, password, LowerCase)
    ensures r == Some(NoNumber) <==>
              && LengthPasses(password, p) && ClassPasses(p.requireUpper, password, UpperCase)
              && ClassPasses(p.requireLower, password, LowerCase) && !ClassPasses(p.requireNumber, password, Digit)
    ensures r == Some(NoSpecial) <==>
              && LengthPasses(password, p) && ClassPasses(p.requireUpper, password, UpperCase)
              && ClassPasses(p.requireLower, password, LowerCase) && ClassPasses(p.requireNumber, password, Digit)
              && !ClassPasses(p.requireSpecial, password, Special)
  {
    match ParseIntOrNull(p.minLength)
    case None => Some(BadMinLength)
    case Some(minLength) =>
      if Utf16Length(password) < minLength then Some(TooShort(minLength))
      else if ParseBooleanOrNull(p.requireUpper) && !Find(password, UpperCase) then Some(NoUppercase)
      else if ParseBooleanOrNull(p.requireLower) && !Find(password, LowerCase) then Some(NoLowercase)
      else if ParseBooleanOrNull(p.requireNumber) && !Find(password, Digit) then Some(NoNumber)
      else if ParseBooleanOrNull(p.requireSpecial) && !Find(password, Special) then Some(NoSpecial)
      else None
  }

  /** `getMaxLoginAttempts`; `None` where `Integer.parseInt` throws. */
  function MaxLoginAttempts(table: Table, tenantId: Option<string>, decrypt: string -> Option<string>): Option<int> {
    ParseIntOrNull(EffectiveValue(table, tenantId, "MAX_LOGIN_ATTEMPTS", Some("5"), decrypt))
  }

  /** `getAccountLockDurationMinutes`. */
  function LockDurationMinutes(table: Table, tenantId: Option<string>, decrypt: string -> Option<string>): Option<int> {
    ParseLongOrNull(EffectiveValue(table, tenantId, "ACCOUNT_LOCK_DURATION_MINUTES", Some("15"), decrypt))
  }

  /** `getAccessTokenExpiryMinutes`. */
  function AccessTokenExpiryMinutes(table: Table, tenantId: Option<string>, decrypt: string -> Option<string>): Option<int> {
    ParseLongOrNull(EffectiveValue(table, tenantId, "JWT_ACCESS_TOKEN_EXPIRY_MINUTES", Some("60"), decrypt))
  }

  /** `getRefreshTokenExpiryDays`. */
  function RefreshTokenExpiryDays(table: Table, tenantId: Option<string>, decrypt: string -> Option<string>): Option<int> {
    ParseLongOrNull(EffectiveValue(table, tenantId, "JWT_REFRESH_TOKEN_EXPIRY_DAYS", Some("30"), decrypt))
  }

  /** With no rows at all, every getter yields its documented default. */
  lemma EmptyTableDefaults(tenantId: Option<string>, decrypt: string -> Option<string>)
    ensures MaxLoginAttempts(map[], tenantId, decrypt) == Some(5)
    ensures LockDurationMinutes(map[], tenantId, decrypt) == Some(15)
    ensures AccessTokenExpiryMinutes(map[], tenantId, decrypt) == Some(60)
    ensures RefreshTokenExpiryDays(map[], tenantId, decrypt) == Some(30)
  {
    assert DigitsValue("5") == 5;
    assert DigitsValue("15") == 15 by { assert "15"[..1] == "1"; }
    assert DigitsValue("60") == 60 by { assert "60"[..1] == "6"; }
    assert DigitsValue("30") == 30 by { assert "30"[..1] == "3"; }
  }

  /** With no rows, a password passes exactly when it has at least 8 UTF-16
      units and an upper-case letter, a lower-case letter, a digit and a
      special character. */
  lemma EmptyTablePasswordPolicy(password: string, tenantId: Option<string>, decrypt: string -> Option<string>)
    ensures ValidatePassword(password, PolicyOf(map[], tenantId, decrypt)).None? <==>
              Utf16Length(password) >= 8 && HasClass(password, UpperCase) && HasClass(password, LowerCase)
              && HasClass(password, Digit) && HasClass(password, Special)
  {
    assert DigitsValue("8") == 8;
    assert Lower("true") == "true";
  }
}
