/**
 * The LevelDB-backed user-account store: an `account` sublevel from username to account entry,
 * a `pref` sublevel from user ID to preference document, and an in-memory preference cache.
 *
 * The storage engine is two maps. Its faults are fixed when the store is opened: reading a key
 * listed in `accountFaults` or `prefFaults` fails with that fault, reading an absent key fails
 * with LEVEL_NOT_FOUND, and when `writeFault` is set every write fails with it. bcrypt, the
 * SHA-256 digest of a username and the clock are supplied by the caller.
 */
module UserAccountStore {
  import opened Eav
  import opened AccountPolicy
  import JsText

  /** A failed LevelDB operation: the key is absent (`LEVEL_NOT_FOUND`), or any other fault. */
  datatype LevelError = NotFound | Fault(code: string)

  /** The value stored under a username in the account sublevel. */
  datatype Entry = Entry(
    password: string,
    userID: string,
    root: bool,
    createdISO: string,
    lastLoginISO: Option<string>)

  /** An entry with its username, as `get` and `listAccountEntries` return it. */
  datatype AccountData = AccountData(username: string, entry: Entry)

  /** A preference value; `undefined` is not a value but the request to remove the key. */
  datatype PrefValue = Text(text: string) | Number(number: int) | Flag(flag: bool) | Null

  type Prefs = map<string, PrefValue>

  /** The error codes and faults the store's operations return. */
  datatype AccountError =
    | NameTaken                   // ERR_NAME_TAKEN
    | Policy(rule: PolicyError)   // the first failing policy rule
    | UserNotFound                // ERR_USER_NOT_FOUND
    | CantDelLastAdmin            // ERR_CANT_DEL_LAST_ADMIN
    | UnknownUser                 // "Can't read preferences of unknown user."
    | Storage(cause: LevelError)  // a storage fault passed through
    | IdRetriesExhausted          // every supplied clock reading gave a user ID already in use

  // ---------------------------------------------------------------------------
  // The account set and its listings

  function UserIDs(m: map<string, Entry>): set<string> {
    set k | k in m :: m[k].userID
  }

  /** The usernames of the root accounts. */
  function Roots(m: map<string, Entry>): set<string> {
    set k | k in m && m[k].root
  }

  predicate UniqueIDs(m: map<string, Entry>) {
    forall a, b :: a in m && b in m && a != b ==> m[a].userID != m[b].userID
  }

  function Names(users: seq<AccountData>): set<string> {
    set i | 0 <= i < |users| :: users[i].username
  }

  /** `users` lists every account of `m` exactly once, each with its stored entry. */
  predicate Lists(users: seq<AccountData>, m: map<string, Entry>) {
    && (forall i :: 0 <= i < |users| ==> users[i].username in m && m[users[i].username] == users[i].entry)
    && (forall i, j :: 0 <= i < j < |users| ==> users[i].username != users[j].username)
    && Names(users) == m.Keys
  }

  /** `users.filter(x => x.root).length`: zero exactly when no listed account is a root. */
  function CountRoots(users: seq<AccountData>): (n: nat)
    ensures n <= |users|
    ensures n == 0 <==> forall i :: 0 <= i < |users| ==> !users[i].entry.root
  {
    if users == [] then 0 else (if users[0].entry.root then 1 else 0) + CountRoots(users[1..])
  }

  /** `users.find(x => x.userID === userID)`: the first account carrying the ID. */
  function Find(users: seq<AccountData>, userID: string): (r: Option<AccountData>)
    ensures r.Some? ==> r.value in users && r.value.entry.userID == userID
    ensures r.None? <==> forall i :: 0 <= i < |users| ==> users[i].entry.userID != userID
    ensures r.Some? ==> exists i :: 0 <= i < |users| && users[i] == r.value
                          && forall j :: 0 <= j < i ==> users[j].entry.userID != userID
  {
    if users == [] then None
    else if users[0].entry.userID == userID then Some(users[0])
    else Find(users[1..], userID)
  }

  /** The user ID derived from a username digest and a clock reading: `<digest>.<Date.now()>`. */
  function CandidateID(nameDigest: string, now: int): string {
    nameDigest + "." + JsText.IntToText(now)
  }

  /** Each of the first `n` clock readings gives a user ID already in `ids`. */
  predicate TakenBefore(nameDigest: string, readings: seq<int>, n: nat, ids: set<string>) {
    forall j :: 0 <= j < n && j < |readings| ==> CandidateID(nameDigest, readings[j]) in ids
  }

  /** A free reading among the first `n` means not all of them collide. */
  lemma FreeReadingBreaksRun(nameDigest: string, readings: seq<int>, i: nat, ids: set<string>)
    requires i < |readings| && CandidateID(nameDigest, readings[i]) !in ids
    ensures !TakenBefore(nameDigest, readings, |readings|, ids)
  {
  }

  /** A preference document after `key` is set to `value`, or removed when `value` is `undefined`. */
  function UpdatedPrefs(doc: Prefs, key: string, value: Option<PrefValue>): (r: Prefs)
    ensures value.None? ==> key !in r
    ensures value.Some? ==> key in r && r[key] == value.value
    ensures forall k :: k != key ==> (k in r <==> k in doc) && (k in r ==> r[k] == doc[k])
  {
    if value.None? then doc - {key} else doc[key := value.value]
  }

  lemma NamesAppend(users: seq<AccountData>, u: AccountData)
    ensures Names(users + [u]) == Names(users) + {u.username}
  {
    var both := users + [u];
    forall n | n in Names(users) ensures n in Names(both) {
      var i :| 0 <= i < |users| && users[i].username == n;
      assert both[i] == users[i];
    }
    assert both[|users|] == u;
  }

  lemma NamesCons(users: seq<AccountData>)
    requires users != []
    ensures Names(users) == {users[0].username} + Names(users[1..])
  {
    var rest := users[1..];
    forall n | n in Names(rest) ensures n in Names(users) {
      var i :| 0 <= i < |rest| && rest[i].username == n;
      assert users[i + 1] == rest[i];
    }
    forall n | n in Names(users) ensures n in {users[0].username} + Names(rest) {
      var i :| 0 <= i < |users| && users[i].username == n;
      if i > 0 {
        assert rest[i - 1] == users[i];
      }
    }
  }

  /** Counting the roots of a listing counts the root accounts. */
  lemma {:induction false} ListedRootCount(users: seq<AccountData>, m: map<string, Entry>)
    requires Lists(users, m)
    ensures CountRoots(users) == |Roots(m)|
    decreases |users|
  {
    if users == [] {
      assert m.Keys == {};
      assert Roots(m) == {};
    } else {
      var u := users[0];
      ListsTail(users, m);
      ListedRootCount(users[1..], m - {u.username});
      RootsAfterRemoval(m, u.username);
      if u.entry.root {
        assert u.username in Roots(m);
      } else {
        assert Roots(m - {u.username}) == Roots(m);
      }
    }
  }

  /** The tail of a listing lists the store without the head's account. */
  lemma ListsTail(users: seq<AccountData>, m: map<string, Entry>)
    requires Lists(users, m) && users != []
    ensures users[0].username in m && m[users[0].username] == users[0].entry
    ensures Lists(users[1..], m - {users[0].username})
  {
    var u := users[0];
    var rest := users[1..];
    NamesCons(users);
    forall i | 0 <= i < |rest| ensures rest[i].username != u.username {
      assert rest[i] == users[i + 1];
    }
    assert u.username !in Names(rest);
    assert forall i :: 0 <= i < |rest| ==> rest[i] == users[i + 1];
  }

  /** Searching a listing for a user ID finds exactly the accounts that carry it. */
  lemma {:induction false} FindInListing(users: seq<AccountData>, m: map<string, Entry>, userID: string)
    requires Lists(users, m)
    ensures Find(users, userID).Some? <==> userID in UserIDs(m)
    ensures Find(users, userID).Some? ==>
      var u := Find(users, userID).value; u.username in m && m[u.username] == u.entry
  {
    if userID in UserIDs(m) {
      var k :| k in m && m[k].userID == userID;
      assert k in Names(users);
      var i :| 0 <= i < |users| && users[i].username == k;
      assert users[i].entry.userID == userID;
    }
    if Find(users, userID).Some? {
      var u := Find(users, userID).value;
      var i :| 0 <= i < |users| && users[i] == u;
      assert u.username in m && m[u.username].userID == userID;
    }
  }

  /** Adding an account under a new name with an unused user ID keeps user IDs unique. */
  lemma FreshIDKeepsUnique(m: map<string, Entry>, name: string, e: Entry)
    requires UniqueIDs(m) && name !in m && e.userID !in UserIDs(m)
    ensures UniqueIDs(m[name := e])
    ensures UserIDs(m[name := e]) == UserIDs(m) + {e.userID}
  {
    var m' := m[name := e];
    forall id | id in UserIDs(m) ensures id in UserIDs(m') {
      var k :| k in m && m[k].userID == id;
      assert m'[k] == m[k];
    }
    assert e.userID == m'[name].userID;
    forall a, b | a in m' && b in m' && a != b ensures m'[a].userID != m'[b].userID {
      if a == name {
        assert m[b].userID in UserIDs(m);
      } else if b == name {
        assert m[a].userID in UserIDs(m);
      }
    }
  }

  /** Removing one account removes at most one root. */
  lemma RootsAfterRemoval(m: map<string, Entry>, name: string)
    ensures Roots(m - {name}) == Roots(m) - {name}
    ensures |Roots(m - {name})| >= |Roots(m)| - 1
    ensures name in Roots(m) ==> |Roots(m - {name})| == |Roots(m)| - 1
  {
    assert Roots(m - {name}) == Roots(m) - {name};
    if name in Roots(m) {
      assert |Roots(m) - {name}| == |Roots(m)| - 1;
    }
  }

  /** Removing one account from a set holding at least two roots leaves a root. */
  lemma RemovalLeavesRoot(m: map<string, Entry>, name: string)
    requires |Roots(m)| >= 2
    ensures |Roots(m - {name})| >= 1
  {
    RootsAfterRemoval(m, name);
  }

  // ---------------------------------------------------------------------------
  // The store

  class Store {
    /** The `account` sublevel: username -> entry. */
    var accounts: map<string, Entry>
    /** The `pref` sublevel: user ID -> preference document. */
    var prefs: map<string, Prefs>
    /** The static preference cache. */
    var prefCache: map<string, Prefs>
    /** Keys whose reads fail with a fault other than LEVEL_NOT_FOUND. */
    const accountFaults: map<string, string>
    const prefFaults: map<string, string>
    /** The fault every write fails with, if writes fail. */
    const writeFault: Option<string>

    /** The store over the database as found on disk; the cache starts empty. */
    constructor (accounts: map<string, Entry>, prefs: map<string, Prefs>,
                 accountFaults: map<string, string>, prefFaults: map<string, string>,
                 writeFault: Option<string>)
      ensures this.accounts == accounts && this.prefs == prefs && prefCache == map[]
      ensures this.accountFaults == accountFaults && this.prefFaults == prefFaults
      ensures this.writeFault == writeFault
    {
      this.accounts := accounts;
      this.prefs := prefs;
      this.prefCache := map[];
      this.accountFaults := accountFaults;
      this.prefFaults := prefFaults;
      this.writeFault := writeFault;
    }

    /** A LevelDB `get` on the account sublevel. */
    function ReadAccount(name: string): Result<Entry, LevelError>
      reads this
    {
      if name in accountFaults then Err(Fault(accountFaults[name]))
      else if name in accounts then Ok(accounts[name])
      else Err(NotFound)
    }

    /** A LevelDB `get` on the preference sublevel. */
    function ReadPrefs(userID: string): Result<Prefs, LevelError>
      reads this
    {
      if userID in prefFaults then Err(Fault(prefFaults[userID]))
      else if userID in prefs then Ok(prefs[userID])
      else Err(NotFound)
    }

    /** Whether listing the accounts fails: some stored account cannot be read. */
    predicate ListingFails()
      reads this
    {
      exists k :: k in accounts && k in accountFaults
    }

    /** `exists`: false only when the read fails with LEVEL_NOT_FOUND; any other fault counts as taken. */
    function Exists(name: string): (b: bool)
      reads this
      ensures !b <==> name !in accounts && name !in accountFaults
      ensures name in accountFaults ==> b
    {
      match ReadAccount(name)
      case Ok(_) => true
      case Err(e) => e != NotFound
    }

    /** `get`: the account with its username, or nothing for an absent name and for every fault alike. */
    function Get(name: string): (r: Option<AccountData>)
      reads this
      ensures r.Some? <==> name in accounts && name !in accountFaults
      ensures r.Some? ==> r.value.username == name && r.value.entry == accounts[name]
    {
      match ReadAccount(name)
      case Ok(entry) => Some(AccountData(name, entry))
      case Err(_) => None
    }

    /** `listAccountEntries`: reads every stored account; the first unreadable one fails the listing. */
    method ListAccountEntries() returns (r: Result<seq<AccountData>, LevelError>)
      ensures r.Ok? <==> !ListingFails()
      ensures r.Ok? ==> Lists(r.value, accounts)
      ensures r.Err? ==> exists k :: k in accounts && k in accountFaults && r.error == Fault(accountFaults[k])
    {
      var users: seq<AccountData> := [];
      var remaining := accounts.Keys;
      while remaining != {}
        invariant remaining <= accounts.Keys
        invariant Names(users) == accounts.Keys - remaining
        invariant forall i :: 0 <= i < |users| ==>
          users[i].username in accounts && accounts[users[i].username] == users[i].entry
        invariant forall i, j :: 0 <= i < j < |users| ==> users[i].username != users[j].username
        invariant forall k :: k in accounts && k !in remaining ==> k !in accountFaults
        decreases remaining
      {
        var name :| name in remaining;
        match ReadAccount(name)
        case Err(e) =>
          return Err(e);
        case Ok(entry) =>
          assert name !in Names(users);
          NamesAppend(users, AccountData(name, entry));
          users := users + [AccountData(name, entry)];
          remaining := remaining - {name};
      }
      return Ok(users);
    }

    /** `listUsernames`: every stored username once. */
    method ListUsernames() returns (names: seq<string>)
      ensures forall i, j :: 0 <= i < j < |names| ==> names[i] != names[j]
      ensures forall k :: k in accounts <==> k in names
    {
      names := [];
      var remaining := accounts.Keys;
      while remaining != {}
        invariant remaining <= accounts.Keys
        invariant forall k :: k in names <==> k in accounts && k !in remaining
        invariant forall i, j :: 0 <= i < j < |names| ==> names[i] != names[j]
        decreases remaining
      {
        var name :| name in remaining;
        names := names + [name];
        remaining := remaining - {name};
      }
    }

    /** `getByID`: a scan for the account with that user ID; a listing fault also gives nothing. */
    method GetByID(userID: string) returns (r: Option<AccountData>)
      ensures r.None? <==> ListingFails() || userID !in UserIDs(accounts)
      ensures r.Some? ==>
        && r.value.username in accounts && accounts[r.value.username] == r.value.entry
        && r.value.entry.userID == userID
    {
      var listing := ListAccountEntries();
      if listing.Err? {
        return None;
      }
      FindInListing(listing.value, accounts, userID);
      r := Find(listing.value, userID);
    }

    /** The collision test of `_generateUserID`: a full listing searched for the candidate ID. */
    method IdInUse(id: string) returns (r: Result<bool, LevelError>)
      ensures r.Ok? <==> !ListingFails()
      ensures r.Ok? ==> (r.value <==> id in UserIDs(accounts))
      ensures r.Err? ==> r.error.Fault?
    {
      var listing := ListAccountEntries();
      if listing.Err? {
        return Err(listing.error);
      }
      FindInListing(listing.value, accounts, id);
      r := Ok(Find(listing.value, id).Some?);
    }

    /**
     * `_generateUserID`: tries `<digest>.<now>` for successive clock readings until one is not in
     * use. The source retries without bound; here the supplied readings bound the retries.
     */
    method GenerateUserID(username: string, digest: string -> string, clock: seq<int>)
      returns (r: Result<string, AccountError>, ghost attempt: nat)
      ensures r.Ok? ==> !ListingFails() && r.value !in UserIDs(accounts)
      ensures r.Ok? ==> attempt < |clock| && r.value == CandidateID(digest(username), clock[attempt])
                        && TakenBefore(digest(username), clock, attempt, UserIDs(accounts))
      ensures r.Err? ==> r.error == IdRetriesExhausted || (r.error.Storage? && r.error.cause.Fault? && ListingFails())
      ensures ListingFails() && |clock| > 0 ==> r.Err? && r.error.Storage?
      ensures r == Err(IdRetriesExhausted) <==>
        (|clock| == 0 || !ListingFails()) && TakenBefore(digest(username), clock, |clock|, UserIDs(accounts))
    {
      var nameDigest := digest(username);
      var i := 0;
      while i < |clock|
        invariant 0 <= i <= |clock|
        invariant TakenBefore(nameDigest, clock, i, UserIDs(accounts))
        invariant i > 0 ==> !ListingFails()
      {
        var id := CandidateID(nameDigest, clock[i]);
        var inUse := IdInUse(id);
        if inUse.Err? {
          return Err(Storage(inUse.error)), i;
        }
        if !inUse.value {
          FreeReadingBreaksRun(nameDigest, clock, i, UserIDs(accounts));
          return Ok(id), i;
        }
        i := i + 1;
      }
      return Err(IdRetriesExhausted), i;
    }

    /**
     * `create`: the name must not be taken (checked even when the policy checks are skipped),
     * then the policy chain, then the password hash, a fresh user ID and the write.
     */
    method Create(name: string, pass: string, root: bool, skipChecks: bool, cfg: PolicyConfig,
                  bcrypt: string -> string, digest: string -> string, createdISO: string, clock: seq<int>)
      returns (r: Option<AccountError>)
      modifies this
      ensures prefs == old(prefs) && prefCache == old(prefCache)
      ensures old(Exists(name)) ==> r == Some(NameTaken)
      ensures !old(Exists(name)) && !skipChecks && CheckPolicy(cfg, name, pass).Some? ==>
        r == Some(Policy(CheckPolicy(cfg, name, pass).value))
      ensures r.Some? ==> accounts == old(accounts)
      ensures r.Some? && r.value.Storage? ==>
        r.value.cause.Fault? && (old(ListingFails()) || writeFault == Some(r.value.cause.code))
      ensures r.None? ==>
        && !old(Exists(name)) && (skipChecks || CheckPolicy(cfg, name, pass).None?)
        && name in accounts && accounts == old(accounts)[name := accounts[name]]
        && accounts[name] == Entry(bcrypt(pass), accounts[name].userID, root, createdISO, None)
        && accounts[name].userID !in UserIDs(old(accounts))
      ensures r.None? && old(UniqueIDs(accounts)) ==> UniqueIDs(accounts)
      ensures skipChecks && r.Some? ==> !r.value.Policy?
      ensures !old(Exists(name)) && (skipChecks || CheckPolicy(cfg, name, pass).None?)
        && old(ListingFails()) && |clock| > 0
        ==> r.Some? && r.value.Storage?
      ensures !old(Exists(name)) && (skipChecks || CheckPolicy(cfg, name, pass).None?)
        && !old(ListingFails()) && TakenBefore(digest(name), clock, |clock|, UserIDs(old(accounts)))
        ==> r == Some(IdRetriesExhausted)
      ensures !old(Exists(name)) && (skipChecks || CheckPolicy(cfg, name, pass).None?)
        && !old(ListingFails()) && writeFault.Some?
        && (exists j :: 0 <= j < |clock| && CandidateID(digest(name), clock[j]) !in UserIDs(old(accounts)))
        ==> r == Some(Storage(Fault(writeFault.value)))
      ensures !old(Exists(name)) && (skipChecks || CheckPolicy(cfg, name, pass).None?)
        && !old(ListingFails()) && writeFault.None?
        && (exists j :: 0 <= j < |clock| && CandidateID(digest(name), clock[j]) !in UserIDs(old(accounts)))
        ==> r.None?
    {
      if Exists(name) {
        return Some(NameTaken);
      }
      if !skipChecks {
        var violation := CheckPolicy(cfg, name, pass);
        if violation.Some? {
          return Some(Policy(violation.value));
        }
      }
      var pwdHash := bcrypt(pass);
      var generated, _ := GenerateUserID(name, digest, clock);
      if generated.Err? {
        return Some(generated.error);
      }
      if writeFault.Some? {
        return Some(Storage(Fault(writeFault.value)));
      }
      var entry := Entry(pwdHash, generated.value, root, createdISO, None);
      if UniqueIDs(accounts) {
        FreshIDKeepsUnique(accounts, name, entry);
      }
      accounts := accounts[name := entry];
      r := None;
    }

    /**
     * `delete`: an absent name is not found; otherwise the roots are counted over a full listing
     * and, whenever exactly one root exists, deletion is refused whatever the target.
     */
    method Delete(name: string) returns (r: Option<AccountError>)
      modifies this
      ensures prefs == old(prefs) && prefCache == old(prefCache)
      ensures !old(Exists(name)) ==> r == Some(UserNotFound)
      ensures old(Exists(name)) && old(ListingFails()) ==> r.Some? && r.value.Storage?
      ensures old(Exists(name)) && !old(ListingFails()) && |Roots(old(accounts))| == 1 ==>
        r == Some(CantDelLastAdmin)
      ensures old(Exists(name)) && !old(ListingFails()) && |Roots(old(accounts))| != 1 ==>
        r == (if writeFault.Some? then Some(Storage(Fault(writeFault.value))) else None)
      ensures r.None? ==> accounts == old(accounts) - {name}
      ensures r.Some? ==> accounts == old(accounts)
      ensures |Roots(old(accounts))| >= 1 ==> |Roots(accounts)| >= 1
    {
      if !Exists(name) {
        return Some(UserNotFound);
      }
      var listing := ListAccountEntries();
      if listing.Err? {
        return Some(Storage(listing.error));
      }
      ListedRootCount(listing.value, accounts);
      if CountRoots(listing.value) == 1 {
        return Some(CantDelLastAdmin);
      }
      if writeFault.Some? {
        return Some(Storage(Fault(writeFault.value)));
      }
      RootsAfterRemoval(accounts, name);
      accounts := accounts - {name};
      r := None;
    }

    /** `open`'s bootstrap: when no root account exists, create `admin`/`admin` as root, checks skipped. */
    method Open(cfg: PolicyConfig, bcrypt: string -> string, digest: string -> string,
                createdISO: string, clock: seq<int>)
      returns (r: Option<AccountError>)
      modifies this
      ensures prefs == old(prefs) && prefCache == old(prefCache)
      ensures old(ListingFails()) ==> r.Some? && r.value.Storage? && accounts == old(accounts)
      ensures !old(ListingFails()) && |Roots(old(accounts))| > 0 ==> r.None? && accounts == old(accounts)
      ensures !old(ListingFails()) && |Roots(old(accounts))| == 0 && old(Exists("admin")) ==>
        r == Some(NameTaken) && accounts == old(accounts)
      ensures |Roots(old(accounts))| == 0 && r.None? ==>
        && "admin" !in old(accounts) && "admin" in accounts && accounts == old(accounts)["admin" := accounts["admin"]]
        && accounts["admin"] == Entry(bcrypt("admin"), accounts["admin"].userID, true, createdISO, None)
      ensures r.None? ==> |Roots(accounts)| >= 1
      ensures r.Some? ==> accounts == old(accounts)
      ensures !old(ListingFails()) && |Roots(old(accounts))| == 0 && !old(Exists("admin")) && writeFault.None?
        && (exists j :: 0 <= j < |clock| && CandidateID(digest("admin"), clock[j]) !in UserIDs(old(accounts)))
        ==> r.None?
      ensures !old(ListingFails()) && |Roots(old(accounts))| == 0 && !old(Exists("admin")) && writeFault.Some?
        && (exists j :: 0 <= j < |clock| && CandidateID(digest("admin"), clock[j]) !in UserIDs(old(accounts)))
        ==> r == Some(Storage(Fault(writeFault.value)))
      ensures !old(ListingFails()) && |Roots(old(accounts))| == 0 && !old(Exists("admin"))
        && TakenBefore(digest("admin"), clock, |clock|, UserIDs(old(accounts)))
        ==> r == Some(IdRetriesExhausted)
    {
      var listing := ListAccountEntries();
      if listing.Err? {
        return Some(Storage(listing.error));
      }
      ListedRootCount(listing.value, accounts);
      if CountRoots(listing.value) == 0 {
        r := Create("admin", "admin", true, true, cfg, bcrypt, digest, createdISO, clock);
        if r.Some? {
          return;
        }
        assert "admin" in Roots(accounts);
      }
      r := None;
    }

    // -------------------------------------------------------------------------
    // Preferences

    /** What `getPreferences(userID)` answers in the current state. */
    function PreferencesOf(userID: string): Result<Prefs, AccountError>
      reads this
    {
      if userID in prefCache then Ok(prefCache[userID])
      else if ListingFails() || userID !in UserIDs(accounts) then Err(UnknownUser)
      else match ReadPrefs(userID)
        case Ok(doc) => Ok(doc)
        case Err(NotFound) => Ok(map[])
        case Err(e) => Err(Storage(e))
    }

    /**
     * `getPreferences`: a cached document is returned without checking the account; otherwise the
     * account must exist, and the stored document (or `{}` when there is none) is cached.
     */
    method GetPreferences(userID: string) returns (r: Result<Prefs, AccountError>)
      modifies this
      ensures r == old(PreferencesOf(userID))
      ensures accounts == old(accounts) && prefs == old(prefs)
      ensures r.Ok? ==> prefCache == old(prefCache)[userID := r.value]
      ensures r.Err? ==> prefCache == old(prefCache)
      ensures old(userID in prefCache) ==> r == Ok(old(prefCache)[userID])
      ensures userID !in old(prefCache) && (old(ListingFails()) || userID !in UserIDs(accounts)) ==>
        r == Err(UnknownUser)
    {
      if userID in prefCache {
        return Ok(prefCache[userID]);
      }
      var owner := GetByID(userID);
      if owner.None? {
        return Err(UnknownUser);
      }
      match ReadPrefs(userID)
      case Ok(doc) =>
        prefCache := prefCache[userID := doc];
        r := Ok(doc);
      case Err(NotFound) =>
        prefCache := prefCache[userID := map[]];
        r := Ok(map[]);
      case Err(e) =>
        r := Err(Storage(e));
    }

    /**
     * `setPreferenceEntry`: loads the document, sets or removes the key, puts the new document in
     * the cache and only then writes it, so a failed write leaves the cache ahead of storage.
     */
    method SetPreferenceEntry(userID: string, key: string, value: Option<PrefValue>)
      returns (r: Option<AccountError>)
      modifies this
      ensures accounts == old(accounts)
      ensures old(PreferencesOf(userID)).Err? ==>
        r == Some(old(PreferencesOf(userID)).error) && prefs == old(prefs) && prefCache == old(prefCache)
      ensures old(PreferencesOf(userID)).Ok? ==>
        && prefCache == old(prefCache)[userID := UpdatedPrefs(old(PreferencesOf(userID)).value, key, value)]
        && (writeFault.None? ==> r.None? && prefs == old(prefs)[userID := prefCache[userID]])
        && (writeFault.Some? ==> r == Some(Storage(Fault(writeFault.value))) && prefs == old(prefs))
      ensures r.None? ==> userID in prefs && userID in prefCache && prefCache[userID] == prefs[userID]
      ensures r.None? ==> PreferencesOf(userID) == Ok(prefCache[userID])
      ensures r.None? && value.Some? ==> key in prefCache[userID] && prefCache[userID][key] == value.value
      ensures r.None? && value.None? ==> key !in prefCache[userID]
    {
      var loaded := GetPreferences(userID);
      if loaded.Err? {
        return Some(loaded.error);
      }
      var doc := UpdatedPrefs(loaded.value, key, value);
      prefCache := prefCache[userID := doc];
      if writeFault.Some? {
        return Some(Storage(Fault(writeFault.value)));
      }
      prefs := prefs[userID := doc];
      r := None;
    }
  }
}
