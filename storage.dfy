/**
 * The credential store the core talks to: the contract of the SQLite storage
 * (package storage/sqlite) kept in memory. It provides the three capabilities
 * the auth service consumes: SaveUser (UserSaver), User and IsAdmin
 * (UserProvider), App (AppProvider).
 *
 * SQL, prepared statements and the driver are not modelled; a failure of the
 * driver or of the request's context is the `fault` parameter of each call.
 * Every error the store returns is wrapped with its operation name, as the
 * storage code does.
 */
module Sqlite {
  import opened Results
  import opened Errors
  import opened Models
  import opened Bcrypt

  const SaveUserOp: string := "storage.sqlite.SaveUser"
  const UserOp: string := "storage.sqlite.User"
  const IsAdminOp: string := "storage.sqlite.IsAdmin"
  const AppOp: string := "storage.sqlite.App"

  class Storage {
    /** Rows of the `users` table, by their UNIQUE email column. */
    var users: map<string, User>
    /** The `is_admin` column, by user id. */
    var admins: map<int, bool>
    /** Rows of the `apps` table, by id; provisioned outside the core. */
    var apps: map<int, App>
    /** The id the next insert receives (`LastInsertId`). */
    var nextId: int

    /** The table constraints: emails key their rows, ids are positive,
        already issued and unique, every user has an admin flag, and apps
        are keyed by their id. */
    ghost predicate Valid()
      reads this
    {
      && nextId >= 1
      && (forall e :: e in users ==> users[e].email == e && 1 <= users[e].id < nextId)
      && (forall e, f :: e in users && f in users && users[e].id == users[f].id ==> e == f)
      && admins.Keys == (set e | e in users :: users[e].id)
      && (forall id :: id in apps ==> apps[id].id == id)
    }

    /** An empty users table over the given applications. */
    constructor (apps: map<int, App>)
      requires forall id :: id in apps ==> apps[id].id == id
      ensures Valid()
      ensures this.users == map[] && this.admins == map[] && this.apps == apps && nextId == 1
    {
      this.users := map[];
      this.admins := map[];
      this.apps := apps;
      this.nextId := 1;
    }

    /** `SaveUser(ctx, email, passHash)`: inserts a row and returns its id, or
        reports the unique-constraint violation as storage.ErrUserExists. On
        any error the id is 0 and nothing is stored. */
    method SaveUser(email: string, passHash: PassHash, fault: Option<int>) returns (uid: int, err: Option<Error>)
      requires Valid()
      modifies this
      ensures Valid()
      ensures fault.Some? ==> uid == 0 && err == Some(Wrapped(SaveUserOp, Foreign(fault.value))) && unchanged(this)
      ensures fault.None? && email in old(users) ==>
                uid == 0 && err == Some(Wrapped(SaveUserOp, Sentinel(StorageUserExists))) && unchanged(this)
      ensures fault.None? && email !in old(users) ==>
                && err == None
                && uid == old(nextId)
                && (forall e :: e in old(users) ==> old(users)[e].id < uid)
                && users == old(users)[email := Models.User(uid, email, passHash)]
                && admins == old(admins)[uid := false]
                && apps == old(apps)
                && nextId == old(nextId) + 1
    {
      if fault.Some? {
        return 0, Some(Wrapped(SaveUserOp, Foreign(fault.value)));
      }
      if email in users {
        return 0, Some(Wrapped(SaveUserOp, Sentinel(StorageUserExists)));
      }
      uid := nextId;
      ghost var ids := set e | e in users :: users[e].id;
      users := users[email := Models.User(uid, email, passHash)];
      admins := admins[uid := false];
      nextId := nextId + 1;
      err := None;
      assert (set e | e in users :: users[e].id) == ids + {uid} by {
        forall id | id in ids + {uid}
          ensures exists e :: e in users && users[e].id == id
        {
          if id == uid {
            assert users[email].id == id;
          } else {
            var e :| e in old(users) && old(users)[e].id == id;
            assert users[e].id == id;
          }
        }
      }
    }

    /** `User(ctx, email)`: the row for `email`, or storage.ErrUserNotFound. */
    function User(email: string, fault: Option<int>): (r: Result<Models.User, Error>)
      reads this
      ensures r.Success? <==> fault.None? && email in users
      ensures r.Success? ==> r.value == users[email]
      ensures r.Failure? && fault.None? ==> r.error == Wrapped(UserOp, Sentinel(StorageUserNotFound))
      ensures r.Failure? && fault.Some? ==> r.error == Wrapped(UserOp, Foreign(fault.value))
      ensures Valid() && r.Success? ==> r.value.email == email && 1 <= r.value.id < nextId
    {
      if fault.Some? then Failure(Wrapped(UserOp, Foreign(fault.value)))
      else if email in users then Success(users[email])
      else Failure(Wrapped(UserOp, Sentinel(StorageUserNotFound)))
    }

    /** `IsAdmin(ctx, userID)`: the user's admin flag. A missing user is
        reported with storage.ErrAppNotFound, the sentinel of the app lookup. */
    function IsAdmin(userID: int, fault: Option<int>): (r: Result<bool, Error>)
      reads this
      ensures r.Success? <==> fault.None? && userID in admins
      ensures r.Success? ==> r.value == admins[userID]
      ensures r.Failure? && fault.None? ==> r.error == Wrapped(IsAdminOp, Sentinel(StorageAppNotFound))
      ensures r.Failure? && fault.Some? ==> r.error == Wrapped(IsAdminOp, Foreign(fault.value))
      // over a consistent table the lookup finds exactly the ids of stored users
      ensures Valid() && fault.None? ==> (r.Success? <==> exists e :: e in users && users[e].id == userID)
      ensures Valid() && fault.None? && (forall e :: e in users ==> users[e].id != userID) ==>
                r == Failure(Wrapped(IsAdminOp, Sentinel(StorageAppNotFound)))
    {
      if fault.Some? then Failure(Wrapped(IsAdminOp, Foreign(fault.value)))
      else if userID in admins then Success(admins[userID])
      else Failure(Wrapped(IsAdminOp, Sentinel(StorageAppNotFound)))
    }

    /** `App(ctx, appID)`: the application row, or storage.ErrAppNotFound. */
    function App(appID: int, fault: Option<int>): (r: Result<Models.App, Error>)
      reads this
      ensures r.Success? <==> fault.None? && appID in apps
      ensures r.Success? ==> r.value == apps[appID]
      ensures r.Failure? && fault.None? ==> r.error == Wrapped(AppOp, Sentinel(StorageAppNotFound))
      ensures r.Failure? && fault.Some? ==> r.error == Wrapped(AppOp, Foreign(fault.value))
      ensures Valid() && r.Success? ==> r.value.id == appID
    {
      if fault.Some? then Failure(Wrapped(AppOp, Foreign(fault.value)))
      else if appID in apps then Success(apps[appID])
      else Failure(Wrapped(AppOp, Sentinel(StorageAppNotFound)))
    }
  }

  /** A user saved under a fresh email is what the lookups then find: the row
      by its email and a false admin flag by its id. Every other email and id
      reads as before, and so do the apps. */
  method SaveThenLookup(s: Storage, email: string, passHash: PassHash) returns (uid: int)
    requires s.Valid() && email !in s.users
    modifies s
    ensures s.Valid()
    ensures s.User(email, None) == Success(Models.User(uid, email, passHash))
    ensures s.IsAdmin(uid, None) == Success(false)
    ensures forall other :: other != email ==> s.User(other, None) == old(s.User(other, None))
    ensures forall id :: id != uid ==> s.IsAdmin(id, None) == old(s.IsAdmin(id, None))
    ensures forall id :: s.App(id, None) == old(s.App(id, None))
  {
    var err;
    uid, err := s.SaveUser(email, passHash, None);
  }
}
