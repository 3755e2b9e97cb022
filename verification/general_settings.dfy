/** `GeneralSettingServiceImpl`: free-form settings grouped by category,
    stored per tenant or globally. Sensitive values are stored encrypted and
    shown masked; a masked value sent back by the form leaves the stored
    secret alone.

    The `settings_general` table is a map from (scope, category, key) to the
    row; the code's `Collectors.toMap` over one scope and category relies on
    keys being unique there, which the map makes structural. `encrypt` and
    `decrypt` stand for `EncryptionUtil`; `decrypt` returns `None` where it
    throws. */
module GeneralSettings {
  import opened Wrappers
  import opened Text
  import opened Tenancy

  datatype Category = General | Branding | Communication | Ai | Exam | Storage | Security

  /** The categories in declaration order. */
  const Categories: seq<Category> := [General, Branding, Communication, Ai, Exam, Storage, Security]

  datatype SettingRef = SettingRef(scope: Scope, category: Category, key: string)

  /** One stored row: the column value and whether it holds ciphertext. */
  datatype Row = Row(value: Option<string>, encrypted: bool)

  type Table = map<SettingRef, Row>

  /** What the form shows in place of a sensitive value. */
  const Mask: string := "******"

  const SensitiveKeys: set<string> := {"SMTP_PASSWORD", "SMS_API_KEY", "AI_API_KEY", "AWS_SECRET_KEY", "STRIPE_SECRET_KEY"}

  predicate IsSensitive(key: string) {
    key in SensitiveKeys || EndsWith(key, "_PASSWORD") || EndsWith(key, "_KEY") || EndsWith(key, "_SECRET")
  }

  /** The explicit list adds nothing: every listed key already ends in a
      sensitive suffix, so sensitivity is decided by the suffix alone. */
  lemma SensitiveBySuffixAlone(key: string)
    ensures IsSensitive(key) <==> EndsWith(key, "_PASSWORD") || EndsWith(key, "_KEY") || EndsWith(key, "_SECRET")
  {
    if key == "SMTP_PASSWORD" {
      assert key[|key| - 9..] == "_PASSWORD";
    } else if key in SensitiveKeys {
      assert key[|key| - 4..] == "_KEY";
    }
  }

  /** The rows of one scope and category, keyed by setting key. */
  function RowsIn(table: Table, scope: Scope, category: Category): (m: map<string, Row>)
    ensures forall k :: k in m <==> SettingRef(scope, category, k) in table
    ensures forall k :: k in m ==> m[k] == table[SettingRef(scope, category, k)]
  {
    map k | k in (set r | r in table && r.scope == scope && r.category == category :: r.key) ::
      table[SettingRef(scope, category, k)]
  }

  /** `decryptIfNeeded`: plain rows as stored; encrypted non-null rows
      decrypted, null when decryption fails. */
  function DecryptIfNeeded(row: Row, decrypt: string -> Option<string>): (v: Option<string>)
    ensures !row.encrypted || row.value.None? ==> v == row.value
  {
    if row.encrypted && row.value.Some? then decrypt(row.value.value) else row.value
  }

  /** `mapSettingsToMap` over one scope and category: encrypted rows are masked. */
  function ListSettings(table: Table, scope: Scope, category: Category): (m: map<string, Option<string>>)
    ensures m.Keys == RowsIn(table, scope, category).Keys
    ensures forall k :: k in m ==>
              m[k] == (if RowsIn(table, scope, category)[k].encrypted then Some(Mask) else RowsIn(table, scope, category)[k].value)
  {
    var rows := RowsIn(table, scope, category);
    map k | k in rows :: if rows[k].encrypted then Some(Mask) else rows[k].value
  }

  /** The row a submitted value leaves behind, starting from the existing row
      (a fresh row is null and plain). */
  function StoreValue(key: string, before: Row, value: Option<string>, encrypt: string -> string): Row {
    if IsSensitive(key) && value.Some? && value.value != "" then
      if value.value != Mask then Row(Some(encrypt(value.value)), true) else before
    else Row(value, false)
  }

  /** Whether `ref` is one of the rows a submission to (scope, category) writes. */
  predicate Touches(ref: SettingRef, scope: Scope, category: Category, newSettings: map<string, Option<string>>) {
    ref.scope == scope && ref.category == category && ref.key in newSettings
  }

  /** `updateSettings`: each submitted key of the scope and category is
      created or overwritten; a sensitive non-empty value is encrypted, the
      mask leaves the row as it was, anything else is stored plain. */
  function UpdateSettings(table: Table, tenantId: Option<string>, category: Category,
                          newSettings: map<string, Option<string>>, encrypt: string -> string): (r: Table)
    ensures forall ref :: ref in r <==> ref in table || Touches(ref, ScopeOf(tenantId), category, newSettings)
    ensures forall ref :: ref in table && !Touches(ref, ScopeOf(tenantId), category, newSettings) ==> r[ref] == table[ref]
    ensures forall ref :: Touches(ref, ScopeOf(tenantId), category, newSettings) ==>
              r[ref] == StoreValue(ref.key, if ref in table then table[ref] else Row(None, false), newSettings[ref.key], encrypt)
  {
    var scope := ScopeOf(tenantId);
    var touched := set k | k in newSettings :: SettingRef(scope, category, k);
    map ref | ref in table.Keys + touched ::
      if ref in touched then
        StoreValue(ref.key, if ref in table then table[ref] else Row(None, false), newSettings[ref.key], encrypt)
      else table[ref]
  }

  /** Submitted values land where they should: a sensitive real value is
      stored as its ciphertext, the mask keeps the old row (or creates a
      null plain row for a new key), other values are stored as given. */
  lemma UpdateStoresValue(table: Table, tenantId: Option<string>, category: Category,
                          newSettings: map<string, Option<string>>, encrypt: string -> string, key: string)
    requires key in newSettings
    ensures var ref := SettingRef(ScopeOf(tenantId), category, key);
            var row := UpdateSettings(table, tenantId, category, newSettings, encrypt)[ref];
            var v := newSettings[key];
            && (IsSensitive(key) && v.Some? && v.value != "" && v.value != Mask ==>
                  row == Row(Some(encrypt(v.value)), true))
            && (IsSensitive(key) && v == Some(Mask) ==>
                  row == (if ref in table then table[ref] else Row(None, false)))
            && (!IsSensitive(key) || v.None? || v == Some("") ==> row == Row(v, false))
  {
  }

  /** The storage invariant the service keeps: only sensitive keys are
      encrypted and always non-null; a sensitive key stored plain is null or
      empty. */
  ghost predicate WellStored(table: Table) {
    forall ref :: ref in table ==>
      (table[ref].encrypted ==> IsSensitive(ref.key) && table[ref].value.Some?)
      && (!table[ref].encrypted && IsSensitive(ref.key) ==> table[ref].value.None? || table[ref].value == Some(""))
  }

  lemma UpdateKeepsWellStored(table: Table, tenantId: Option<string>, category: Category,
                              newSettings: map<string, Option<string>>, encrypt: string -> string)
    requires WellStored(table)
    ensures WellStored(UpdateSettings(table, tenantId, category, newSettings, encrypt))
  {
  }

  /** Saving the form exactly as it was listed changes nothing: masked
      secrets stay as stored and plain values are written back unchanged. */
  lemma {:induction false} SaveListedIsIdentity(table: Table, tenantId: Option<string>, category: Category,
                                                encrypt: string -> string)
    requires WellStored(table)
    ensures UpdateSettings(table, tenantId, category, ListSettings(table, ScopeOf(tenantId), category), encrypt) == table
  {
    var scope := ScopeOf(tenantId);
    var listed := ListSettings(table, scope, category);
    var r := UpdateSettings(table, tenantId, category, listed, encrypt);
    forall ref | ref in table
      ensures r[ref] == table[ref]
    {
      if Touches(ref, scope, category, listed) {
        ListedRowSavesBack(table, scope, category, ref.key, encrypt);
      }
    }
    assert r.Keys == table.Keys;
  }

  /** One listed row, sent back unchanged, is stored unchanged. */
  lemma ListedRowSavesBack(table: Table, scope: Scope, category: Category, key: string, encrypt: string -> string)
    requires WellStored(table)
    requires SettingRef(scope, category, key) in table
    ensures var row := table[SettingRef(scope, category, key)];
            StoreValue(key, row, ListSettings(table, scope, category)[key], encrypt) == row
  {
    var row := table[SettingRef(scope, category, key)];
    assert RowsIn(table, scope, category)[key] == row;
  }

  /** Errors of `getSettingValue`. */
  datatype SettingError = NonUniqueKey   // the key exists in several categories of the scope

  /** The rows of a scope holding `key`, one per category in `cats` order. */
  function Hits(table: Table, scope: Scope, key: string, cats: seq<Category>): (hs: seq<Row>)
    ensures |hs| <= |cats|
    ensures |hs| == 0 <==> forall i :: 0 <= i < |cats| ==> SettingRef(scope, cats[i], key) !in table
    ensures forall h :: h in hs ==> exists i :: 0 <= i < |cats| && SettingRef(scope, cats[i], key) in table
                                                && table[SettingRef(scope, cats[i], key)] == h
  {
    if |cats| == 0 then []
    else
      var rest := Hits(table, scope, key, cats[1..]);
      assert forall h :: h in rest ==> exists i :: 0 <= i < |cats| && SettingRef(scope, cats[i], key) in table
                                                   && table[SettingRef(scope, cats[i], key)] == h by {
        forall h | h in rest
          ensures exists i :: 0 <= i < |cats| && SettingRef(scope, cats[i], key) in table
                              && table[SettingRef(scope, cats[i], key)] == h
        {
          var j :| 0 <= j < |cats[1..]| && SettingRef(scope, cats[1..][j], key) in table
                   && table[SettingRef(scope, cats[1..][j], key)] == h;
          assert cats[j + 1] == cats[1..][j];
        }
      }
      var ref := SettingRef(scope, cats[0], key);
      if ref in table then [table[ref]] + rest else rest
  }

  /** `findByTenantId[IsNull]AndKey`: no row, the single row, or the
      repository's non-unique-result failure. */
  function FindByKey(table: Table, scope: Scope, key: string): Result<Option<Row>, SettingError> {
    var hs := Hits(table, scope, key, Categories);
    if |hs| == 0 then Ok(None) else if |hs| == 1 then Ok(Some(hs[0])) else Err(NonUniqueKey)
  }

  /** Every category is listed in `Categories`. */
  lemma CategoriesComplete(c: Category)
    ensures c in Categories
  {
  }

  /** `getSettingValue`: the tenant's row if it has one, else the global
      row, else null; values come decrypted (null when that fails). */
  function GetSettingValue(table: Table, tenantId: Option<string>, key: string,
                           decrypt: string -> Option<string>): (r: Result<Option<string>, SettingError>)
    ensures (forall c :: SettingRef(Global, c, key) !in table)
            && (tenantId.None? || forall c :: SettingRef(Tenant(tenantId.value), c, key) !in table)
            ==> r == Ok(None)
  {
    var tenantHit := if tenantId.Some? then FindByKey(table, Tenant(tenantId.value), key) else Ok(None);
    match tenantHit
    case Err(e) => Err(e)
    case Ok(Some(row)) => Ok(DecryptIfNeeded(row, decrypt))
    case Ok(None) =>
      match FindByKey(table, Global, key)
      case Err(e) => Err(e)
      case Ok(Some(row)) => Ok(DecryptIfNeeded(row, decrypt))
      case Ok(None) => Ok(None)
  }

  /** A key held by exactly one category of a scope is found there. */
  lemma {:induction false} HitsSingle(table: Table, scope: Scope, key: string, category: Category, cats: seq<Category>)
    requires forall c :: c != category ==> SettingRef(scope, c, key) !in table
    requires SettingRef(scope, category, key) in table
    requires category in cats && forall i, j :: 0 <= i < j < |cats| ==> cats[i] != cats[j]
    ensures Hits(table, scope, key, cats) == [table[SettingRef(scope, category, key)]]
  {
    if cats[0] == category {
      HitsNone(table, scope, key, category, cats[1..]);
    } else {
      assert category in cats[1..];
      HitsSingle(table, scope, key, category, cats[1..]);
    }
  }

  lemma {:induction false} HitsNone(table: Table, scope: Scope, key: string, category: Category, cats: seq<Category>)
    requires forall c :: c != category ==> SettingRef(scope, c, key) !in table
    requires category !in cats
    ensures Hits(table, scope, key, cats) == []
  {
    if |cats| > 0 {
      HitsNone(table, scope, key, category, cats[1..]);
    }
  }

  lemma CategoriesDistinct()
    ensures forall i, j :: 0 <= i < j < |Categories| ==> Categories[i] != Categories[j]
  {
  }

  /** A key held by exactly one category of a scope is found by key lookup. */
  lemma FindSingle(table: Table, scope: Scope, key: string, category: Category)
    requires forall c :: c != category ==> SettingRef(scope, c, key) !in table
    requires SettingRef(scope, category, key) in table
    ensures FindByKey(table, scope, key) == Ok(Some(table[SettingRef(scope, category, key)]))
  {
    CategoriesComplete(category);
    CategoriesDistinct();
    HitsSingle(table, scope, key, category, Categories);
  }

  /** Read after write: a real value saved for a key that lives in one
      category only reads back decrypted, for the tenant that saved it. */
  lemma ReadAfterUpdate(table: Table, tenantId: Option<string>, category: Category, newSettings: map<string, Option<string>>,
                        key: string, encrypt: string -> string, decrypt: string -> Option<string>)
    requires key in newSettings && newSettings[key].Some? && newSettings[key] != Some(Mask)
    requires forall c :: c != category ==> SettingRef(ScopeOf(tenantId), c, key) !in table
    requires forall p: string :: decrypt(encrypt(p)) == Some(p)
    ensures GetSettingValue(UpdateSettings(table, tenantId, category, newSettings, encrypt), tenantId, key, decrypt)
            == Ok(newSettings[key])
  {
    var r := UpdateSettings(table, tenantId, category, newSettings, encrypt);
    var scope := ScopeOf(tenantId);
    var ref := SettingRef(scope, category, key);
    assert Touches(ref, scope, category, newSettings);
    forall c | c != category
      ensures SettingRef(scope, c, key) !in r
    {
      assert !Touches(SettingRef(scope, c, key), scope, category, newSettings);
    }
    FindSingle(r, scope, key, category);
    var v := newSettings[key].value;
    if IsSensitive(key) && v != "" {
      assert r[ref] == Row(Some(encrypt(v)), true);
      assert decrypt(encrypt(v)) == Some(v);
    } else {
      assert r[ref] == Row(Some(v), false);
    }
    assert DecryptIfNeeded(r[ref], decrypt) == Some(v);
  }

  /** `scope` holds `key` in category `c` and in no other. */
  predicate OnlyIn(table: Table, scope: Scope, key: string, c: Category) {
    SettingRef(scope, c, key) in table && forall c' :: c' != c ==> SettingRef(scope, c', key) !in table
  }

  /** `scope` holds `key` in no category. */
  predicate Absent(table: Table, scope: Scope, key: string) {
    forall c :: SettingRef(scope, c, key) !in table
  }

  /** `scope` holds `key` in the two different categories `c1` and `c2`. */
  predicate InTwo(table: Table, scope: Scope, key: string, c1: Category, c2: Category) {
    c1 != c2 && SettingRef(scope, c1, key) in table && SettingRef(scope, c2, key) in table
  }

  /** A key held in two categories of a scope gives at least two hits. */
  lemma {:induction false} HitsTwo(table: Table, scope: Scope, key: string, c1: Category, c2: Category, cats: seq<Category>)
    requires InTwo(table, scope, key, c1, c2)
    requires c1 in cats && c2 in cats
    ensures |Hits(table, scope, key, cats)| >= 2
  {
    var rest := Hits(table, scope, key, cats[1..]);
    if cats[0] == c1 || cats[0] == c2 {
      var other := if cats[0] == c1 then c2 else c1;
      var i :| 0 <= i < |cats| && cats[i] == other;
      assert cats[1..][i - 1] == other;
      assert |rest| != 0;
    } else {
      assert c1 in cats[1..] && c2 in cats[1..];
      HitsTwo(table, scope, key, c1, c2, cats[1..]);
    }
  }

  /** A key held in two categories of a scope makes the key lookup fail. */
  lemma FindTwo(table: Table, scope: Scope, key: string, c1: Category, c2: Category)
    requires InTwo(table, scope, key, c1, c2)
    ensures FindByKey(table, scope, key) == Err(NonUniqueKey)
  {
    CategoriesComplete(c1);
    CategoriesComplete(c2);
    HitsTwo(table, scope, key, c1, c2, Categories);
  }

  /** How `getSettingValue` resolves a key: the tenant's own row wins; with
      no tenant row the global row is used; two rows for the key in one
      scope are the repository's non-unique failure, the tenant scope being
      consulted first. */
  lemma SettingValueResolution(table: Table, tenantId: Option<string>, key: string,
                               decrypt: string -> Option<string>, c1: Category, c2: Category)
    ensures tenantId.Some? && OnlyIn(table, Tenant(tenantId.value), key, c1) ==>
              GetSettingValue(table, tenantId, key, decrypt)
              == Ok(DecryptIfNeeded(table[SettingRef(Tenant(tenantId.value), c1, key)], decrypt))
    ensures (tenantId.None? || Absent(table, Tenant(tenantId.value), key)) && OnlyIn(table, Global, key, c1) ==>
              GetSettingValue(table, tenantId, key, decrypt)
              == Ok(DecryptIfNeeded(table[SettingRef(Global, c1, key)], decrypt))
    ensures tenantId.Some? && InTwo(table, Tenant(tenantId.value), key, c1, c2) ==>
              GetSettingValue(table, tenantId, key, decrypt) == Err(NonUniqueKey)
    ensures (tenantId.None? || Absent(table, Tenant(tenantId.value), key)) && InTwo(table, Global, key, c1, c2) ==>
              GetSettingValue(table, tenantId, key, decrypt) == Err(NonUniqueKey)
  {
    if tenantId.Some? {
      var t := Tenant(tenantId.value);
      if OnlyIn(table, t, key, c1) {
        FindSingle(table, t, key, c1);
      }
      if InTwo(table, t, key, c1, c2) {
        FindTwo(table, t, key, c1, c2);
      }
    }
    if OnlyIn(table, Global, key, c1) {
      FindSingle(table, Global, key, c1);
    }
    if InTwo(table, Global, key, c1, c2) {
      FindTwo(table, Global, key, c1, c2);
    }
  }
}
