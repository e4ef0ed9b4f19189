/** The in-memory user directory of auth-oathd/main.go: the user record
    with its PIN cache (`User`, `User.Authorize`), the ordered directory
    (`Users`, `Users.Authorize`) and its construction from the decoded
    configuration file (`loadUsers`). */
module Directory {
  import opened Wrappers
  import opened Verifier
  import opened Messages

  /** How long a verified password stays trusted: 24 hours, in nanoseconds. */
  const Window: int := 24 * 3600 * 1_000_000_000

  /** A user record. `name` and `key` are set once when the configuration
      is loaded; `pin` and `accessed` form the PIN cache, updated in place.
      `accessed == None` stands for Go's zero time, which lies further
      than 24 hours in the past of any clock reading. Elapsed time is
      `now - accessed` on a single clock (the program measures it on the
      monotonic clock, where it is never negative). */
  class User {
    const name: string
    const key: string
    var pin: string
    var accessed: Option<int>

    constructor (name: string, key: string)
      ensures this.name == name && this.key == key
      ensures pin == "" && accessed == None
      ensures Valid()
    {
      this.name := name;
      this.key := key;
      pin := "";
      accessed := None;
    }

    /** The cache is empty exactly when it has never been filled. */
    ghost predicate Valid()
      reads this
    {
      (pin == "") == accessed.None?
    }

    /** The cached password was accepted by oathtool, for this user's key,
        at the time it was cached, and that run really took place. */
    ghost predicate Trusted(host: Host, flags: OathFlags)
      reads this, host
    {
      accessed.Some? ==>
        var argv := Argv(flags, host.rfc3339(accessed.value), key, pin);
        argv in host.runs && host.accepts(argv)
    }

    /** The shortcut: the candidate equals the cached password and at most
        24 hours have passed since it was cached. */
    predicate CacheHit(password: string, now: int)
      reads this
    {
      password == pin && accessed.Some? && now - accessed.value <= Window
    }

    /** `User.Authorize`: the PIN-cache policy in front of the verifier. */
    method Authorize(password: string, now: int, flags: OathFlags, host: Host) returns (ok: bool)
      modifies this`pin, this`accessed, host`runs
      ensures AuthorizeStep(this, password, now, flags, host, ok)
      ensures old(Valid()) ==> Valid()
      ensures old(Trusted(host, flags)) ==> Trusted(host, flags)
      ensures old(Valid()) && password == "" ==>
        !ok && host.runs == old(host.runs) && unchanged(this)
    {
      if password == pin {
        if accessed.Some? && now - accessed.value <= Window {
          return true;
        }
      }

      ok := Verifier.Authorize(host, key, password, now, flags);
      if !ok {
        return false;
      }

      pin := password;
      accessed := Some(now);
      return true;
    }
  }

  /** What one `User.Authorize` call does to the record `u` and to the
      log of oathtool runs. A cache hit succeeds without running anything
      and changes nothing; otherwise the verdict is oathtool's, and only a
      success refills the cache, with the candidate and the current time. */
  twostate predicate AuthorizeStep(u: User, password: string, now: int, flags: OathFlags, host: Host, ok: bool)
    reads u, host
  {
    if old(u.CacheHit(password, now)) then
      ok && u.pin == old(u.pin) && u.accessed == old(u.accessed) && host.runs == old(host.runs)
    else
      ok == Verdict(host, u.key, password, now, flags)
      && host.runs == old(host.runs) + Launched(host, u.key, password, now, flags)
      && if ok then u.pin == password && u.accessed == Some(now)
         else u.pin == old(u.pin) && u.accessed == old(u.accessed)
  }

  /** The position of the first occurrence of `name` in `names`. */
  function Find(names: seq<string>, name: string): (r: Option<nat>)
    ensures r.None? <==> name !in names
    ensures r.Some? ==> r.value < |names| && names[r.value] == name
    ensures r.Some? ==> forall j :: 0 <= j < r.value ==> names[j] != name
  {
    if names == [] then None
    else if names[0] == name then Some(0)
    else match Find(names[1..], name)
      case None => None
      case Some(k) => Some(k + 1)
  }

  /** In a list without repeated names the first match is the only one. */
  lemma FindUnique(names: seq<string>, name: string, i: nat)
    requires forall j, k :: 0 <= j < k < |names| ==> names[j] != names[k]
    requires i < |names| && names[i] == name
    ensures Find(names, name) == Some(i)
  {
  }

  /** The directory: the records in configuration order. */
  datatype Users = Users(records: seq<User>) {

    function Names(): (names: seq<string>)
      ensures |names| == |records|
      ensures forall i :: 0 <= i < |records| ==> names[i] == records[i].name
    {
      seq(|records|, i requires 0 <= i < |records| => records[i].name)
    }

    /** Names are unique and present, keys present, caches consistent. */
    ghost predicate Valid()
      reads records
    {
      (forall i, j :: 0 <= i < j < |records| ==> records[i].name != records[j].name)
      && forall i :: 0 <= i < |records| ==>
           records[i].name != "" && records[i].key != "" && records[i].Valid()
    }

    ghost predicate Trusted(host: Host, flags: OathFlags)
      reads records, host
    {
      forall i :: 0 <= i < |records| ==> records[i].Trusted(host, flags)
    }

    /** `Users.Authorize`: the first record carrying the requested name
        decides, whether it accepts or not; an unknown name is refused. */
    method Authorize(message: IngoingMessage, now: int, flags: OathFlags, host: Host) returns (ok: bool)
      modifies records, host`runs
      ensures DirectoryStep(this, message, now, flags, host, ok)
      ensures old(Valid()) ==> Valid()
      ensures old(Trusted(host, flags)) ==> Trusted(host, flags)
    {
      var i := 0;
      while i < |records|
        invariant 0 <= i <= |records|
        invariant forall k :: 0 <= k < i ==> records[k].name != message.name
        invariant host.runs == old(host.runs)
        invariant forall u :: u in records ==> unchanged(u)
      {
        var u := records[i];
        if u.name == message.name {
          assert Find(Names(), message.name) == Some(i);
          ok := u.Authorize(message.password, now, flags, host);
          if ok {
            return true;
          }
          break;
        }
        i := i + 1;
      }

      return false;
    }
  }

  /** What one `Users.Authorize` call does: with no record of that name,
      refuses and changes nothing; otherwise the first such record takes
      one `User.Authorize` step and every other record is left alone. */
  twostate predicate DirectoryStep(users: Users, message: IngoingMessage, now: int, flags: OathFlags, host: Host, ok: bool)
    reads users.records, host
  {
    match Find(users.Names(), message.name)
    case None =>
      !ok && host.runs == old(host.runs) && forall u :: u in users.records ==> unchanged(u)
    case Some(i) =>
      AuthorizeStep(users.records[i], message.password, now, flags, host, ok)
      && forall u :: u in users.records && u != users.records[i] ==> unchanged(u)
  }

  /** One decoded entry of the configuration file: `{"user": ..., "key": ...}`. */
  datatype Entry = Entry(user: string, key: string)

  /** Why loading stopped; `entry` is the 1-based position of the entry. */
  datatype LoadError =
    | MissingField(entry: nat, field: string)
    | Duplicate(name: string, entry: nat)

  /** The complaint about entry `i`, checked in the order the loader does:
      empty name, empty key, name already taken by an earlier entry. */
  function EntryCheck(entries: seq<Entry>, i: nat): Option<LoadError>
    requires i < |entries|
  {
    if entries[i].user == "" then Some(MissingField(i + 1, "user"))
    else if entries[i].key == "" then Some(MissingField(i + 1, "key"))
    else if exists j :: 0 <= j < i && entries[j].user == entries[i].user then
      Some(Duplicate(entries[i].user, i + 1))
    else None
  }

  /** The first entry at or after `from` with a complaint. */
  function FirstBad(entries: seq<Entry>, from: nat): (r: Option<nat>)
    requires from <= |entries|
    ensures r.Some? ==> from <= r.value < |entries| && EntryCheck(entries, r.value).Some?
    ensures r.Some? ==> forall j :: from <= j < r.value ==> EntryCheck(entries, j).None?
    ensures r.None? ==> forall j :: from <= j < |entries| ==> EntryCheck(entries, j).None?
    decreases |entries| - from
  {
    if from == |entries| then None
    else if EntryCheck(entries, from).Some? then Some(from)
    else FirstBad(entries, from + 1)
  }

  /** The outcome of the validation pass: the complaint about the first
      offending entry, or None when every entry passes. */
  function Validate(entries: seq<Entry>): (r: Option<LoadError>)
    ensures r.None? <==> forall i :: 0 <= i < |entries| ==> EntryCheck(entries, i).None?
    ensures r.Some? ==>
      1 <= r.value.entry <= |entries|
      && EntryCheck(entries, r.value.entry - 1) == r
      && forall j :: 0 <= j < r.value.entry - 1 ==> EntryCheck(entries, j).None?
  {
    match FirstBad(entries, 0)
    case None => None
    case Some(i) => EntryCheck(entries, i)
  }

  /** What a loadable configuration is: every entry names a user and a key,
      and no name repeats. */
  ghost predicate WellFormed(entries: seq<Entry>)
  {
    (forall i :: 0 <= i < |entries| ==> entries[i].user != "" && entries[i].key != "")
    && forall i, j :: 0 <= i < j < |entries| ==> entries[i].user != entries[j].user
  }

  /** Validation accepts exactly the well-formed configurations. */
  lemma ValidateAcceptsWellFormed(entries: seq<Entry>)
    ensures Validate(entries).None? <==> WellFormed(entries)
  {
    if Validate(entries).None? {
      forall i | 0 <= i < |entries|
        ensures entries[i].user != "" && entries[i].key != ""
      {
        assert EntryCheck(entries, i).None?;
      }
      forall i, j | 0 <= i < j < |entries|
        ensures entries[i].user != entries[j].user
      {
        assert EntryCheck(entries, j).None?;
      }
    } else {
      var k := Validate(entries).value.entry - 1;
      if entries[k].user != "" && entries[k].key != "" {
        var j :| 0 <= j < k && entries[j].user == entries[k].user;
        assert !WellFormed(entries);
      }
    }
  }

  /** The first entry with a complaint decides the outcome. */
  lemma ValidateStopsAtFirst(entries: seq<Entry>, i: nat)
    requires i < |entries| && EntryCheck(entries, i).Some?
    requires forall j :: 0 <= j < i ==> EntryCheck(entries, j).None?
    ensures Validate(entries) == EntryCheck(entries, i)
  {
  }

  /** The directory holds one fresh record per entry, in order, each with
      the entry's name and key and an empty cache. */
  ghost predicate Loaded(users: Users, entries: seq<Entry>)
    reads users.records
  {
    |users.records| == |entries|
    && forall i :: 0 <= i < |entries| ==>
         users.records[i].name == entries[i].user
         && users.records[i].key == entries[i].key
         && users.records[i].pin == ""
         && users.records[i].accessed == None
  }

  /** `loadUsers`, after the file has been read and decoded: rejects the
      first offending entry, otherwise builds the directory in order. */
  method LoadUsers(entries: seq<Entry>) returns (r: Result<Users, LoadError>)
    ensures Validate(entries).Some? ==> r == Failure(Validate(entries).value)
    ensures Validate(entries).None? ==> r.Success? && Loaded(r.value, entries)
    ensures r.Success? ==> r.value.Valid()
    ensures r.Success? ==> forall u :: u in r.value.records ==> fresh(u)
  {
    var users: seq<User> := [];

    for i := 0 to |entries|
      invariant |users| == i
      invariant forall k :: 0 <= k < i ==> EntryCheck(entries, k).None?
      invariant Loaded(Users(users), entries[..i])
      invariant forall u :: u in users ==> fresh(u)
    {
      var u := entries[i];
      if u.user == "" {
        ValidateStopsAtFirst(entries, i);
        return Failure(MissingField(i + 1, "user"));
      }

      if u.key == "" {
        ValidateStopsAtFirst(entries, i);
        return Failure(MissingField(i + 1, "key"));
      }

      for j := 0 to |users|
        invariant forall k :: 0 <= k < j ==> users[k].name != u.user
      {
        if users[j].name == u.user {
          assert entries[j].user == entries[i].user;
          ValidateStopsAtFirst(entries, i);
          return Failure(Duplicate(u.user, i + 1));
        }
      }

      var user := new User(u.user, u.key);
      users := users + [user];
    }

    r := Success(Users(users));
    ValidateAcceptsWellFormed(entries);
  }
}
