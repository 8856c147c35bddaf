/**
 * The SQLite-backed `users` table and its bootstrap. The table is a map keyed by the `username`
 * primary key. The driver's failures are fixed per statement when the handle is opened; an
 * INSERT on a taken username fails with a constraint error, as the primary key demands.
 * The uuid generator, bcrypt and `CURRENT_TIMESTAMP` are supplied by the caller.
 */
module SqliteAccounts {
  import opened Eav

  /** A `users` row; `root` is the stored integer that `WHERE root = 1` compares. */
  datatype Row = Row(uuid: string, password: string, root: int, created: string, lastLogin: Option<string>)

  /** `new Date(text)`: the date built from a stored timestamp; calendar parsing is not modelled. */
  datatype Date = DateFrom(text: string)

  /** The row as `get` returns it, with its timestamps converted to dates. */
  datatype UserAccountData = UserAccountData(
    username: string, uuid: string, password: string, root: int, created: Date, lastLogin: Option<Date>)

  datatype DbError =
    | Driver(message: string)  // an error the sqlite3 driver reports
    | Constraint               // SQLITE_CONSTRAINT: the username is already a primary key
    | TypeError                // a field read on the `undefined` row of an empty result

  /** Which statements the driver fails, and with what message. */
  datatype Faults = Faults(
    pragma: Option<string>,
    createTable: Option<string>,
    countRoots: Option<string>,
    insertAdmin: Option<string>,
    selectAdmin: Option<string>,
    selectUser: Option<string>)

  /** The usernames whose row has `root = 1`. */
  function RootNames(users: map<string, Row>): set<string> {
    set k | k in users && users[k].root == 1
  }

  /** The conversion `get` applies to a fetched row. */
  function Convert(name: string, row: Row): (u: UserAccountData)
    ensures u.username == name && u.uuid == row.uuid && u.password == row.password && u.root == row.root
    ensures u.created == DateFrom(row.created)
    ensures u.lastLogin.None? <==> row.lastLogin.None?
    ensures row.lastLogin.Some? ==> u.lastLogin == Some(DateFrom(row.lastLogin.value))
  {
    UserAccountData(name, row.uuid, row.password, row.root, DateFrom(row.created),
      match row.lastLogin
      case None => None
      case Some(t) => Some(DateFrom(t)))
  }

  class UsersTable {
    var users: map<string, Row>
    const faults: Faults

    constructor (users: map<string, Row>, faults: Faults)
      ensures this.users == users && this.faults == faults
    {
      this.users := users;
      this.faults := faults;
    }

    /** Whether the statements `prepare` runs before its root check all succeed. */
    predicate SetupSucceeds()
      reads this
    {
      faults.pragma.None? && faults.createTable.None? && faults.countRoots.None?
    }

    /**
     * `prepare`: enables foreign keys, creates the table if needed and counts the root rows.
     * With none, it inserts `admin` as root with a uuid prefixed `admin.`; otherwise it reads
     * the `admin` row's password, which throws when there is no `admin` row.
     */
    method Prepare(newUuid: string, bcrypt: string -> string, now: string) returns (err: Option<DbError>)
      modifies this
      ensures err.None? ==> |RootNames(users)| >= 1
      ensures err.Some? ==> users == old(users)
      ensures |RootNames(old(users))| > 0 ==> users == old(users)
      ensures SetupSucceeds() && |RootNames(old(users))| == 0 ==>
        err == (if faults.insertAdmin.Some? then Some(Driver(faults.insertAdmin.value))
                else if "admin" in old(users) then Some(Constraint) else None)
      ensures SetupSucceeds() && |RootNames(old(users))| > 0 ==>
        err == (if faults.selectAdmin.Some? then Some(Driver(faults.selectAdmin.value))
                else if "admin" !in users then Some(TypeError) else None)
      ensures !SetupSucceeds() ==>
        err == Some(Driver(if faults.pragma.Some? then faults.pragma.value
                           else if faults.createTable.Some? then faults.createTable.value
                           else faults.countRoots.value))
      ensures err.None? && |RootNames(old(users))| == 0 ==>
        users == old(users)["admin" := Row("admin." + newUuid, bcrypt("admin"), 1, now, None)]
    {
      if faults.pragma.Some? {
        return Some(Driver(faults.pragma.value));
      }
      if faults.createTable.Some? {
        return Some(Driver(faults.createTable.value));
      }
      if faults.countRoots.Some? {
        return Some(Driver(faults.countRoots.value));
      }
      if |RootNames(users)| == 0 {
        var uuid := "admin." + newUuid;
        var pwd := bcrypt("admin");
        if faults.insertAdmin.Some? {
          return Some(Driver(faults.insertAdmin.value));
        }
        if "admin" in users {
          return Some(Constraint);
        }
        users := users["admin" := Row(uuid, pwd, 1, now, None)];
        assert "admin" in RootNames(users);
      } else {
        if faults.selectAdmin.Some? {
          return Some(Driver(faults.selectAdmin.value));
        }
        if "admin" !in users {
          return Some(TypeError);
        }
      }
      err := None;
    }

    /**
     * `get`: the row of `name` with its dates converted. A missing row is an error, not an
     * absent value: the conversion reads a field of `undefined` and throws.
     */
    method Get(name: string) returns (r: Result<UserAccountData, DbError>)
      ensures faults.selectUser.Some? ==> r == Err(Driver(faults.selectUser.value))
      ensures faults.selectUser.None? && name !in users ==> r == Err(TypeError)
      ensures r.Ok? <==> faults.selectUser.None? && name in users
      ensures r.Ok? ==> r.value == Convert(name, users[name])
    {
      if faults.selectUser.Some? {
        return Err(Driver(faults.selectUser.value));
      }
      if name !in users {
        return Err(TypeError);
      }
      r := Ok(Convert(name, users[name]));
    }
  }
}
