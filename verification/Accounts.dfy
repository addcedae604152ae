/**
  `AccountManager`: the accounts in memory against the array they are persisted in. Urls,
  certificates and capabilities are opaque values that the settings keep; what `restore`
  makes of missing or unusable entries follows the source.
 */
module Accounts {
  import opened Options

  type Uuid = nat
  const NULL_UUID: Uuid := 0
  type Certificate = nat
  type Capabilities = map<string, string>

  /** A private key; only RSA and EC keys are recognised when they are read back. */
  datatype Key = NoKey | Rsa(id: nat) | Ec(id: nat) | OtherKey(id: nat)

  datatype Account = Account(
    uuid: Uuid, url: string, displayName: string, capabilities: Option<Capabilities>, syncRoot: string,
    approved: set<Certificate>, clientCertificate: Option<Certificate>, clientKey: Key, signedOut: bool)

  datatype Field =
    Url | DisplayName | Id | Caps | SyncRoot | CaCertificates | ClientCertificate | ClientPrivateKey | SignedOut

  datatype Value =
    | Text(text: string) | Uid(uuid: Uuid) | CapsValue(caps: Capabilities) | Certificates(certs: set<Certificate>)
    | Pem(cert: Certificate) | KeyPem(key: Key) | Flag(flag: bool) | Count(count: nat)

  /** A key of the settings: the array of accounts, its size, or anything else. */
  datatype SettingKey = Size | Entry(index: nat, field: Field) | Elsewhere(name: string)

  type Entries = map<SettingKey, Value>

  function ValueAt(entries: Entries, i: nat, f: Field): Option<Value> {
    if Entry(i, f) in entries then Some(entries[Entry(i, f)]) else None
  }

  // ---------------------------------------------------------------- writing

  /** What `save` writes for a field of an account, if anything. */
  function Written(a: Account, f: Field): Option<Value> {
    match f
    case Url => Some(Text(a.url))
    case DisplayName => Some(Text(a.displayName))
    case Id => Some(Uid(a.uuid))
    case Caps => if a.capabilities.Some? then Some(CapsValue(a.capabilities.value)) else None
    case SyncRoot => if a.syncRoot != "" then Some(Text(a.syncRoot)) else None
    case CaCertificates => if a.approved != {} then Some(Certificates(a.approved)) else None
    case ClientCertificate => if a.clientCertificate.Some? then Some(Pem(a.clientCertificate.value)) else None
    case ClientPrivateKey => if a.clientCertificate.Some? then Some(KeyPem(a.clientKey)) else None
    case SignedOut => Some(Flag(a.signedOut))
  }

  /** Array entry `i` holds the account and nothing else. */
  ghost predicate Holds(entries: Entries, i: nat, a: Account) {
    forall f :: ValueAt(entries, i, f) == Written(a, f)
  }

  // ---------------------------------------------------------------- reading

  function ToText(v: Option<Value>): string {
    if v.Some? && v.value.Text? then v.value.text else ""
  }

  function ToUuid(v: Option<Value>, created: Uuid): Uuid {
    if v.None? then created else if v.value.Uid? then v.value.uuid else NULL_UUID
  }

  /** Restored capabilities are marked as cached. */
  function ToCapabilities(v: Option<Value>): Capabilities {
    (if v.Some? && v.value.CapsValue? then v.value.caps else map[])["cached" := "true"]
  }

  function ToCertificates(v: Option<Value>): set<Certificate> {
    if v.Some? && v.value.Certificates? then v.value.certs else {}
  }

  predicate IsRecognised(key: Key) {
    key.Rsa? || key.Ec?
  }

  /** The client certificate is restored only together with a key that is recognised. */
  function ToClientPair(cert: Option<Value>, key: Option<Value>): (Option<Certificate>, Key) {
    if cert.Some? && cert.value.Pem? && key.Some? && key.value.KeyPem? && IsRecognised(key.value.key)
    then (Some(cert.value.cert), key.value.key)
    else (None, NoKey)
  }

  /** The account in array entry `i`; an entry without a url is none. */
  function ReadAccount(entries: Entries, i: nat, created: Uuid): Option<Account> {
    if ValueAt(entries, i, Url).None? then None
    else
      var pair := ToClientPair(ValueAt(entries, i, ClientCertificate), ValueAt(entries, i, ClientPrivateKey));
      Some(Account(
        ToUuid(ValueAt(entries, i, Id), created),
        ToText(ValueAt(entries, i, Url)),
        ToText(ValueAt(entries, i, DisplayName)),
        Some(ToCapabilities(ValueAt(entries, i, Caps))),
        ToText(ValueAt(entries, i, SyncRoot)),
        ToCertificates(ValueAt(entries, i, CaCertificates)),
        pair.0,
        pair.1,
        ValueAt(entries, i, SignedOut) == Some(Flag(true))))
  }

  function SizeOf(entries: Entries): nat {
    if Size in entries && entries[Size].Count? then entries[Size].count else 0
  }

  /** The accounts after the first `n` entries were read and added. */
  function Restored(accounts: map<Uuid, Account>, entries: Entries, create: nat -> Uuid, n: nat): map<Uuid, Account> {
    if n == 0 then accounts
    else
      var before := Restored(accounts, entries, create, n - 1);
      var a := ReadAccount(entries, n - 1, create(n - 1));
      if a.None? then before else before[a.value.uuid := a.value]
  }

  // -------------------------------------------------------------- durability

  /** What is left of an account after saving and restoring it. */
  function Durable(a: Account): Account {
    var kept := a.clientCertificate.Some? && IsRecognised(a.clientKey);
    a.(capabilities := Some(CachedCapabilities(a)),
       clientCertificate := if kept then a.clientCertificate else None,
       clientKey := if kept then a.clientKey else NoKey)
  }

  function CachedCapabilities(a: Account): Capabilities {
    (if a.capabilities.Some? then a.capabilities.value else map[])["cached" := "true"]
  }

  /**
    What is left of each field: a client certificate only together with an RSA or EC key, the
    capabilities with their cached mark, and everything else as it was.
   */
  lemma WhatSurvives(a: Account)
    ensures var d := Durable(a);
            && d.uuid == a.uuid && d.url == a.url && d.displayName == a.displayName
            && d.syncRoot == a.syncRoot && d.approved == a.approved && d.signedOut == a.signedOut
            && (d.clientCertificate, d.clientKey) ==
               (if a.clientCertificate.Some? && (a.clientKey.Rsa? || a.clientKey.Ec?)
                then (a.clientCertificate, a.clientKey) else (None, NoKey))
            && d.capabilities.Some? && "cached" in d.capabilities.value && d.capabilities.value["cached"] == "true"
            && forall key :: key != "cached" ==>
                 && (key in d.capabilities.value <==> a.capabilities.Some? && key in a.capabilities.value)
                 && (key in d.capabilities.value ==> d.capabilities.value[key] == a.capabilities.value[key])
  {
  }

  /** What an array entry that holds an account consists of. */
  lemma StoredFields(entries: Entries, i: nat, a: Account)
    requires Holds(entries, i, a)
    ensures ValueAt(entries, i, Url) == Some(Text(a.url)) && ValueAt(entries, i, Id) == Some(Uid(a.uuid))
    ensures ValueAt(entries, i, DisplayName) == Some(Text(a.displayName))
    ensures ValueAt(entries, i, SignedOut) == Some(Flag(a.signedOut))
    ensures ValueAt(entries, i, Caps)
         == if a.capabilities.Some? then Some(CapsValue(a.capabilities.value)) else None
    ensures ValueAt(entries, i, SyncRoot) == if a.syncRoot != "" then Some(Text(a.syncRoot)) else None
    ensures ValueAt(entries, i, CaCertificates) == if a.approved != {} then Some(Certificates(a.approved)) else None
    ensures var cert := a.clientCertificate;
            && ValueAt(entries, i, ClientCertificate) == (if cert.Some? then Some(Pem(cert.value)) else None)
            && ValueAt(entries, i, ClientPrivateKey) == (if cert.Some? then Some(KeyPem(a.clientKey)) else None)
  {
    assert forall f :: ValueAt(entries, i, f) == Written(a, f);
  }

  /** An entry counts exactly if it has a url; without a uuid it gets the one created for it. */
  lemma EntryCountsExactly(entries: Entries, i: nat, created: Uuid)
    ensures ReadAccount(entries, i, created).Some? <==> Entry(i, Url) in entries
    ensures var a := ReadAccount(entries, i, created);
            && (a.Some? && Entry(i, Id) !in entries ==> a.value.uuid == created)
            && (a.Some? && Entry(i, Id) in entries && entries[Entry(i, Id)].Uid? ==>
                  a.value.uuid == entries[Entry(i, Id)].uuid)
  {
  }

  /** All but the capabilities survive exactly when a client certificate comes with a recognised key. */
  lemma DurableExactly(a: Account)
    ensures Durable(a) == a.(capabilities := Durable(a).capabilities)
       <==> if a.clientCertificate.Some? then IsRecognised(a.clientKey) else a.clientKey == NoKey
    ensures Durable(Durable(a)) == Durable(a)
  {
    var caps := CachedCapabilities(a);
    assert caps["cached" := "true"] == caps;
  }

  function DurableAll(accounts: map<Uuid, Account>): map<Uuid, Account> {
    map u | u in accounts :: Durable(accounts[u])
  }

  lemma HeldAccountIsRead(entries: Entries, i: nat, a: Account, created: Uuid)
    requires Holds(entries, i, a)
    ensures ReadAccount(entries, i, created) == Some(Durable(a))
  {
    assert forall f :: ValueAt(entries, i, f) == Written(a, f);
  }

  /** The array holds exactly these accounts, in some order. */
  ghost predicate Stores(entries: Entries, accounts: map<Uuid, Account>, order: seq<Uuid>) {
    && (forall u :: u in order <==> u in accounts)
    && (forall i, j :: 0 <= i < j < |order| ==> order[i] != order[j])
    && Size in entries && entries[Size] == Count(|order|)
    && (forall i :: 0 <= i < |order| ==> order[i] in accounts && Holds(entries, i, accounts[order[i]]))
    && (forall i: nat, f :: ValueAt(entries, i, f).Some? ==> i < |order|)
  }

  ghost predicate KeysAreUuids(accounts: map<Uuid, Account>) {
    forall u :: u in accounts ==> accounts[u].uuid == u
  }

  function FirstAccounts(accounts: map<Uuid, Account>, order: seq<Uuid>): map<Uuid, Account>
    requires forall u :: u in order ==> u in accounts
  {
    map u | u in order :: Durable(accounts[u])
  }

  lemma RestoredOneMore(entries: Entries, i: nat, a: Account, create: nat -> Uuid)
    requires Holds(entries, i, a)
    ensures Restored(map[], entries, create, i + 1) == Restored(map[], entries, create, i)[a.uuid := Durable(a)]
  {
    HeldAccountIsRead(entries, i, a, create(i));
  }

  lemma {:induction false} RestoredPrefix(
    entries: Entries, accounts: map<Uuid, Account>, order: seq<Uuid>, create: nat -> Uuid, n: nat)
    requires KeysAreUuids(accounts) && n <= |order|
    requires forall u :: u in order ==> u in accounts
    requires forall i: nat :: i < |order| ==> Holds(entries, i, accounts[order[i]])
    ensures Restored(map[], entries, create, n) == FirstAccounts(accounts, order[..n])
    decreases n
  {
    if n > 0 {
      RestoredPrefix(entries, accounts, order, create, n - 1);
      var u := order[n - 1];
      RestoredOneMore(entries, n - 1, accounts[u], create);
      assert order[..n] == order[..n - 1] + [u];
      FirstAccountsStep(accounts, order[..n - 1], u);
    }
  }

  lemma FirstAccountsStep(accounts: map<Uuid, Account>, order: seq<Uuid>, u: Uuid)
    requires u in accounts && forall v :: v in order ==> v in accounts
    ensures FirstAccounts(accounts, order + [u]) == FirstAccounts(accounts, order)[u := Durable(accounts[u])]
  {
  }

  /** Restoring a stored array into an empty manager gives the same accounts, as durable as they are. */
  lemma RestoringStoredAccounts(entries: Entries, accounts: map<Uuid, Account>, order: seq<Uuid>, create: nat -> Uuid)
    requires Stores(entries, accounts, order) && KeysAreUuids(accounts)
    ensures Restored(map[], entries, create, SizeOf(entries)) == DurableAll(accounts)
  {
    RestoredPrefix(entries, accounts, order, create, |order|);
    assert order[..|order|] == order;
  }

  predicate Provides(entries: Entries, create: nat -> Uuid, i: nat, u: Uuid) {
    var a := ReadAccount(entries, i, create(i));
    a.Some? && a.value.uuid == u
  }

  /** The last of the first `n` entries that provides the uuid; -1 if none does. */
  ghost function LastProvider(entries: Entries, create: nat -> Uuid, n: nat, u: Uuid): (p: int)
    ensures -1 <= p < n
    ensures p >= 0 ==> Provides(entries, create, p, u)
    ensures forall j: nat :: p < j < n ==> !Provides(entries, create, j, u)
  {
    if n == 0 then -1
    else if Provides(entries, create, n - 1, u) then n - 1
    else LastProvider(entries, create, n - 1, u)
  }

  lemma {:induction false} RestoredIsLastProvided(entries: Entries, create: nat -> Uuid, n: nat, u: Uuid)
    ensures var r, p := Restored(map[], entries, create, n), LastProvider(entries, create, n, u);
            (u in r <==> p >= 0) && (p >= 0 ==> r[u] == ReadAccount(entries, p, create(p)).value)
    decreases n
  {
    if n > 0 {
      RestoredIsLastProvided(entries, create, n - 1, u);
    }
  }

  /** For any array: every readable entry counts, the last one of a uuid wins, all others are dropped. */
  lemma RestoredExactly(entries: Entries, create: nat -> Uuid, n: nat, u: Uuid)
    ensures var r := Restored(map[], entries, create, n);
            && (u in r <==> exists i: nat :: i < n && Provides(entries, create, i, u))
            && (u in r ==> exists i: nat :: i < n && Provides(entries, create, i, u)
                                         && r[u] == ReadAccount(entries, i, create(i)).value
                                         && forall j: nat :: i < j < n ==> !Provides(entries, create, j, u))
  {
    RestoredIsLastProvided(entries, create, n, u);
    var p := LastProvider(entries, create, n, u);
    if p >= 0 {
      assert Provides(entries, create, p, u);
    }
  }

  // -------------------------------------------------------------- classes

  class Settings {
    var entries: Entries

    constructor (entries: Entries)
      ensures this.entries == entries
    {
      this.entries := entries;
    }

    /** Removes the array, whatever it held. */
    method RemoveArray()
      modifies this
      ensures entries == map key | key in old(entries) && key.Elsewhere? :: old(entries)[key]
    {
      entries := map key | key in entries && key.Elsewhere? :: entries[key];
    }

    method SetValue(i: nat, f: Field, v: Value)
      modifies this
      ensures Changed(old(entries), entries, i, f, Some(v))
    {
      entries := entries[Entry(i, f) := v];
    }

    method Remove(i: nat, f: Field)
      modifies this
      ensures Changed(old(entries), entries, i, f, None)
    {
      entries := entries - {Entry(i, f)};
    }
  }

  ghost predicate Changed(before: Entries, after: Entries, i: nat, f: Field, v: Option<Value>) {
    && SameOutside(before, after)
    && forall p: nat, g :: ValueAt(after, p, g) == if p == i && g == f then v else ValueAt(before, p, g)
  }

  /** Of entry `i` the fields `done` are written, everything else is as before. */
  ghost predicate Progress(before: Entries, after: Entries, i: nat, a: Account, done: set<Field>) {
    && SameOutside(before, after)
    && forall p: nat, g :: ValueAt(after, p, g) == if p == i && g in done then Written(a, g) else ValueAt(before, p, g)
  }

  /** No setting outside the array's entries differs. */
  ghost predicate SameOutside(before: Entries, after: Entries) {
    forall key: SettingKey :: !key.Entry? ==>
      (key in after <==> key in before) && (key in before ==> after[key] == before[key])
  }

  /** The array holds these accounts so far, each once. */
  ghost predicate SavedSoFar(entries: Entries, accounts: map<Uuid, Account>, order: seq<Uuid>) {
    && (forall p, q :: 0 <= p < q < |order| ==> order[p] != order[q])
    && (forall p :: 0 <= p < |order| ==> order[p] in accounts && Holds(entries, p, accounts[order[p]]))
    && (forall p: nat, f :: ValueAt(entries, p, f).Some? ==> p < |order|)
  }

  lemma SavedOneMore(before: Entries, after: Entries, accounts: map<Uuid, Account>, order: seq<Uuid>, u: Uuid)
    requires SavedSoFar(before, accounts, order) && u in accounts && u !in order
    requires Holds(after, |order|, accounts[u])
    requires forall p: nat, f :: p != |order| ==> ValueAt(after, p, f) == ValueAt(before, p, f)
    ensures SavedSoFar(after, accounts, order + [u])
  {
    var more := order + [u];
    forall p | 0 <= p < |more|
      ensures more[p] in accounts && Holds(after, p, accounts[more[p]])
    {
      if p < |order| {
        assert more[p] == order[p] && Holds(before, p, accounts[order[p]]);
      }
    }
  }

  class AccountManager {
    const settings: Settings
    var accounts: map<Uuid, Account>

    ghost predicate Valid()
      reads this
    {
      KeysAreUuids(accounts)
    }

    /** What a later start would restore is what is in memory, as far as it is durable. */
    ghost predicate StoredMatchesMemory()
      reads this, settings
    {
      forall create: nat -> Uuid ::
        Restored(map[], settings.entries, create, SizeOf(settings.entries)) == DurableAll(accounts)
    }

    constructor (settings: Settings)
      ensures this.settings == settings && accounts == map[] && Valid()
    {
      this.settings := settings;
      accounts := map[];
    }

    method AddAccountState(a: Account)
      requires Valid()
      modifies this
      ensures Valid() && accounts == old(accounts)[a.uuid := a]
    {
      accounts := accounts[a.uuid := a];
    }

    /** Writes one account at an index of the array that holds nothing yet. */
    method SaveAccount(i: nat, a: Account)
      requires forall f :: ValueAt(settings.entries, i, f).None?
      modifies settings
      ensures Holds(settings.entries, i, a) && SameOutside(old(settings.entries), settings.entries)
      ensures forall p: nat, f :: p != i ==> ValueAt(settings.entries, p, f) == ValueAt(old(settings.entries), p, f)
    {
      settings.SetValue(i, Url, Text(a.url));
      settings.SetValue(i, DisplayName, Text(a.displayName));
      settings.SetValue(i, Id, Uid(a.uuid));
      assert Progress(old(settings.entries), settings.entries, i, a, {Url, DisplayName, Id});
      if a.capabilities.Some? {
        settings.SetValue(i, Caps, CapsValue(a.capabilities.value));
      }
      assert Progress(old(settings.entries), settings.entries, i, a, {Url, DisplayName, Id, Caps});
      if a.syncRoot != "" {
        settings.SetValue(i, SyncRoot, Text(a.syncRoot));
      }
      assert Progress(old(settings.entries), settings.entries, i, a, {Url, DisplayName, Id, Caps, SyncRoot});
      if a.approved != {} {
        settings.SetValue(i, CaCertificates, Certificates(a.approved));
      }
      ghost var most := {Url, DisplayName, Id, Caps, SyncRoot, CaCertificates};
      assert Progress(old(settings.entries), settings.entries, i, a, most);
      SaveClientCertificate(i, a, old(settings.entries), most);
      settings.SetValue(i, SignedOut, Flag(a.signedOut));
    }

    method SaveClientCertificate(i: nat, a: Account, ghost before: Entries, ghost done: set<Field>)
      requires Progress(before, settings.entries, i, a, done)
      modifies settings
      ensures Progress(before, settings.entries, i, a, done + {ClientCertificate, ClientPrivateKey})
    {
      if a.clientCertificate.Some? {
        settings.SetValue(i, ClientCertificate, Pem(a.clientCertificate.value));
        settings.SetValue(i, ClientPrivateKey, KeyPem(a.clientKey));
      } else {
        settings.Remove(i, ClientCertificate);
        settings.Remove(i, ClientPrivateKey);
      }
    }

    /** Replaces the stored array by the accounts in memory and touches no other setting. */
    method Save()
      requires Valid()
      modifies settings
      ensures StoredMatchesMemory()
      ensures forall name :: var key := Elsewhere(name);
                (key in settings.entries <==> key in old(settings.entries))
                && (key in settings.entries ==> settings.entries[key] == old(settings.entries)[key])
    {
      settings.RemoveArray();
      settings.entries := settings.entries[Size := Count(|accounts|)];
      ghost var base := settings.entries;
      var todo := accounts.Keys;
      ghost var order: seq<Uuid> := [];
      var i := 0;
      while todo != {}
        invariant i == |order| && i + |todo| == |accounts| && todo <= accounts.Keys
        invariant forall u :: u in order <==> u in accounts && u !in todo
        invariant SavedSoFar(settings.entries, accounts, order)
        invariant SameOutside(base, settings.entries)
        decreases todo
      {
        var u :| u in todo;
        ghost var before := settings.entries;
        SaveAccount(i, accounts[u]);
        SavedOneMore(before, settings.entries, accounts, order, u);
        order := order + [u];
        todo := todo - {u};
        i := i + 1;
      }
      forall create: nat -> Uuid
        ensures Restored(map[], settings.entries, create, SizeOf(settings.entries)) == DurableAll(accounts)
      {
        RestoringStoredAccounts(settings.entries, accounts, order, create);
      }
    }

    /** `create(i)` is the uuid created for entry `i` if it has none. */
    method Restore(create: nat -> Uuid)
      requires Valid()
      modifies this
      ensures Valid()
      ensures accounts == Restored(old(accounts), settings.entries, create, SizeOf(settings.entries))
    {
      var size := SizeOf(settings.entries);
      for i := 0 to size
        invariant Valid()
        invariant accounts == Restored(old(accounts), settings.entries, create, i)
      {
        var a := ReadAccount(settings.entries, i, create(i));
        if a.None? {
          continue;
        }
        AddAccountState(a.value);
      }
    }

    /** An account that is not managed is ignored; otherwise the stored array follows. */
    method DeleteAccount(a: Account)
      requires Valid()
      modifies this, settings
      ensures Valid()
      ensures if a in old(accounts).Values
              then accounts == old(accounts) - {a.uuid} && StoredMatchesMemory()
              else accounts == old(accounts) && settings.entries == old(settings.entries)
    {
      if a !in accounts.Values {
        return;
      }
      accounts := accounts - {a.uuid};
      Save();
    }
  }

  /** A restart: what was saved and restored once is saved and restored unchanged from then on. */
  method Restart(settings: Settings, before: AccountManager, create: nat -> Uuid) returns (next: AccountManager)
    requires before.Valid() && before.settings == settings
    modifies settings
    ensures next.Valid() && next.settings == settings
    ensures next.accounts == DurableAll(before.accounts)
    ensures DurableAll(next.accounts) == next.accounts
  {
    before.Save();
    next := new AccountManager(settings);
    next.Restore(create);
    forall u | u in before.accounts
      ensures Durable(Durable(before.accounts[u])) == Durable(before.accounts[u])
    {
      DurableExactly(before.accounts[u]);
    }
  }
}
