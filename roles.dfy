/**
 * A role and the behaviour the mixin gives it: the permission-key reader and
 * writer with their per-object cache, the permission check and its dynamic
 * predicates, the after-save hook that writes the assigned keys to the join
 * table, saving with its presence validation, and the JSON projection.
 */
module Roles {
  import opened Wrappers
  import opened Schema
  import opened Associations
  import opened Sync
  import opened PermissionCheck
  import opened PredicateNames

  /**
   * The characters that make a string blank for the presence validation: the
   * class `[:space:]` of Ruby 1.9 regular expressions (Unicode 6.0 space,
   * line and paragraph separators, tab to carriage return, and next line).
   */
  predicate IsBlankChar(c: char)
  {
    ('\t' <= c <= '\r') || c == ' ' || c == '\U{0085}' || c == '\U{00A0}' ||
    c == '\U{1680}' || c == '\U{180E}' || ('\U{2000}' <= c <= '\U{200A}') ||
    c == '\U{2028}' || c == '\U{2029}' || c == '\U{202F}' || c == '\U{205F}' || c == '\U{3000}'
  }

  /** `present?`: not nil and not made only of whitespace. */
  predicate Present(v: Option<string>)
  {
    v.Some? && exists i :: 0 <= i < |v.value| && !IsBlankChar(v.value[i])
  }

  /** `validates_presence_of :name, :default_path` */
  predicate PresenceValid(r: RoleRecord)
  {
    Present(r.name) && Present(r.defaultPath)
  }

  /** What `permission_keys` returns: the assigned keys, or else the persisted ones. */
  function KeysRead(pending: Option<seq<string>>, persisted: seq<string>): seq<string>
  {
    if pending.Some? then pending.value else persisted
  }

  /** The outcome of calling an undefined method on a role. */
  datatype Outcome = Answered(granted: bool) | NoMethodError(name: string)

  /** The hash `as_json` builds, before the framework encodes it. */
  datatype RoleJson = RoleJson(id: nat, name: Option<string>, description: Option<string>, permissions: seq<nat>)

  /** `collect(&:id)` */
  function Ids(ps: seq<Permission>): (r: seq<nat>)
    ensures |r| == |ps| && forall i :: 0 <= i < |ps| ==> r[i] == ps[i].id
  {
    if ps == [] then [] else [ps[0].id] + Ids(ps[1..])
  }

  /** `as_json`: the role's id, name and description, and the ids of its permissions in name order. */
  function AsJson(role: RoleRecord, catalogue: seq<Permission>, rows: seq<JoinRow>): (j: RoleJson)
  {
    RoleJson(role.id, role.name, role.description, Ids(RolePermissions(catalogue, rows, role.id)))
  }

  /**
   * The projection lists one id per permission of the role, in the name order of
   * those permissions, and an id is listed iff a join row links the role to a
   * catalogue permission with that id.
   */
  lemma AsJsonPermissions(role: RoleRecord, catalogue: seq<Permission>, rows: seq<JoinRow>, pid: nat)
    requires IdsUnique(catalogue)
    ensures var j := AsJson(role, catalogue, rows);
            var ps := RolePermissions(catalogue, rows, role.id);
            j.id == role.id && j.name == role.name && j.description == role.description &&
            |j.permissions| == |ps| &&
            (forall i :: 0 <= i < |ps| ==> j.permissions[i] == ps[i].id) &&
            (pid in j.permissions <==> JoinRow(role.id, pid) in rows && exists p :: p in catalogue && p.id == pid)
  {
    var ps := RolePermissions(catalogue, rows, role.id);
    var ids := Ids(ps);
    if pid in ids {
      var i :| 0 <= i < |ids| && ids[i] == pid;
      assert ps[i] in ps;
    }
    if p :| p in catalogue && p.id == pid && JoinRow(role.id, pid) in rows {
      RolePermissionsMembers(catalogue, rows, role.id, p);
      var i :| 0 <= i < |ps| && ps[i] == p;
      assert ids[i] == pid;
    }
  }

  /**
   * As intended, asking a role about a Permission row answers whether a join
   * row links the role to that permission.
   */
  lemma RowQueryMeansLinked(catalogue: seq<Permission>, rows: seq<JoinRow>, roleId: nat, p: Permission)
    requires IdsUnique(catalogue) && KeysUnique(catalogue) && p in catalogue
    ensures PermissionQuery(PersistedKeys(catalogue, rows, roleId), Row(p)) <==> JoinRow(roleId, p.id) in rows
  {
    PersistedKeysMembers(catalogue, rows, roleId, p.key);
    if q :| q in catalogue && q.key == p.key && JoinRow(roleId, q.id) in rows {
      SameKeySamePermission(catalogue, p, q);
    }
  }

  class Role {
    const id: nat
    var name: Option<string>
    var description: Option<string>
    var defaultPath: Option<string>
    /** `@permission_keys`: unset until read or assigned, and reset by the after-save hook. */
    var pending: Option<seq<string>>

    constructor (id: nat, name: Option<string>, description: Option<string>, defaultPath: Option<string>)
      ensures this.id == id && this.name == name && this.description == description
      ensures this.defaultPath == defaultPath && pending == None
    {
      this.id := id;
      this.name := name;
      this.description := description;
      this.defaultPath := defaultPath;
      pending := None;
    }

    function Record(): RoleRecord
      reads this
    {
      RoleRecord(id, name, description, defaultPath)
    }

    /** `permission_keys`: the assigned keys, or the persisted keys, which it then caches. */
    method PermissionKeys(db: Store) returns (keys: seq<string>)
      modifies this`pending
      ensures keys == KeysRead(old(pending), PersistedKeys(db.catalogue, db.rows, id))
      ensures pending == Some(keys)
    {
      if pending.None? {
        pending := Some(PersistedKeys(db.catalogue, db.rows, id));
      }
      keys := pending.value;
    }

    /** `permission_keys=`: replaces the cached keys and returns the value assigned. */
    method SetPermissionKeys(value: Option<seq<string>>) returns (r: Option<seq<string>>)
      modifies this`pending
      ensures pending == value && r == value
    {
      pending := value;
      r := pending;
    }

    /**
     * `permission?` / `has`: whether the keys `permission_keys` returns contain
     * the argument's `to_s`. For a key that is the key itself; for a Permission
     * row it is `permissionToS`, which Permission defines outside this model.
     */
    method Has(db: Store, arg: PermissionArg, permissionToS: Permission -> string) returns (granted: bool)
      modifies this`pending
      ensures var keys := KeysRead(old(pending), PersistedKeys(db.catalogue, db.rows, id));
              pending == Some(keys) &&
              (arg.Key? ==> (granted <==> arg.text in keys)) &&
              (arg.Row? ==> (granted <==> permissionToS(arg.permission) in keys))
    {
      var keys := PermissionKeys(db);
      granted := PermissionQueryAsWritten(keys, arg, permissionToS);
    }

    /**
     * `method_missing`: a name with a line of the shape `[a-z_]*?` asks `has`
     * about the name with its `?`s deleted; any other name raises NoMethodError.
     * For a name without a newline that is exactly a predicate name `key?`.
     */
    method MethodMissing(db: Store, methodName: string) returns (r: Outcome)
      modifies this`pending
      ensures !MatchesAsWritten(methodName) ==> r == NoMethodError(methodName) && pending == old(pending)
      ensures MatchesAsWritten(methodName) ==>
                var keys := KeysRead(old(pending), PersistedKeys(db.catalogue, db.rows, id));
                r == Answered(DeleteQuestionMarks(methodName) in keys) && pending == Some(keys)
      ensures '\n' !in methodName ==>
                (r.NoMethodError? <==> !IsPredicateName(methodName)) &&
                (IsPredicateName(methodName) ==>
                   r == Answered(methodName[..|methodName| - 1] in
                                 KeysRead(old(pending), PersistedKeys(db.catalogue, db.rows, id))))
    {
      if '\n' !in methodName {
        AsWrittenAgreesWithoutNewline(methodName);
      }
      match DispatchAsWritten(methodName)
      case Some(key) =>
        // a key argument never reaches Permission's `to_s`
        var granted := Has(db, Key(key), (p: Permission) => "");
        r := Answered(granted);
      case None =>
        r := NoMethodError(methodName);
    }

    /**
     * `save_permission_keys`, run after a save: when keys were assigned (or read
     * into the cache), replace the role's join rows by one per distinct known
     * key, reset the cache and return the refreshed keys; otherwise do nothing.
     */
    method SavePermissionKeys(db: Store) returns (refreshed: Option<seq<string>>)
      modifies this`pending, db`rows
      ensures old(pending).None? ==> db.rows == old(db.rows) && pending == None && refreshed == None
      ensures old(pending).Some? ==>
                db.rows == SyncRows(old(db.rows), db.catalogue, id, old(pending).value) &&
                pending == None &&
                refreshed == Some(PersistedKeys(db.catalogue, db.rows, id))
    {
      refreshed := None;
      if pending.Some? {
        var desired := pending.value;
        db.rows := ClearRole(db.rows, id);
        var keys := Uniq(desired);
        var i := 0;
        while i < |keys|
          invariant 0 <= i <= |keys|
          invariant db.rows == ClearRole(old(db.rows), id) + RowsFor(db.catalogue, id, keys[..i])
        {
          assert keys[..i + 1][..i] == keys[..i];
          var permission := FindByKey(db.catalogue, keys[i]);
          if permission.Some? {
            db.rows := db.rows + [JoinRow(id, permission.value.id)];
          }
          i := i + 1;
        }
        assert keys[..i] == keys;
        pending := None;
        refreshed := Some(PersistedKeys(db.catalogue, db.rows, id));
      }
    }

    /**
     * `save`: an invalid role is not saved and nothing changes; a valid one is
     * saved and its after-save hook runs.
     */
    method Save(db: Store) returns (saved: bool)
      modifies this`pending, db`rows
      ensures saved == PresenceValid(Record())
      ensures !saved ==> db.rows == old(db.rows) && pending == old(pending)
      ensures saved ==> pending == None
      ensures saved && old(pending).None? ==> db.rows == old(db.rows)
      ensures saved && old(pending).Some? ==> db.rows == SyncRows(old(db.rows), db.catalogue, id, old(pending).value)
    {
      saved := PresenceValid(Record());
      if saved {
        var _ := SavePermissionKeys(db);
      }
    }
  }

  /** After `permission_keys = v` and before a save, the reader returns `v` and `has(k)` is `k in v`. */
  method AssignThenCheck(role: Role, db: Store, v: seq<string>, k: string) returns (keys: seq<string>, granted: bool)
    modifies role`pending
    ensures keys == v && (granted <==> k in v)
    ensures role.pending == Some(v)
  {
    var _ := role.SetPermissionKeys(Some(v));
    keys := role.PermissionKeys(db);
    granted := role.Has(db, Key(k), (p: Permission) => "");
  }

  /**
   * Assigning `v` and saving a valid role leaves it holding exactly the keys of
   * `v` that name known permissions, each once and with no duplicate join rows,
   * the other roles' rows untouched.
   */
  method AssignSaveThenCheck(role: Role, db: Store, v: seq<string>, k: string) returns (keys: seq<string>, granted: bool)
    requires db.Valid() && PresenceValid(role.Record())
    modifies role`pending, db`rows
    ensures ClearRole(db.rows, role.id) == ClearRole(old(db.rows), role.id)
    ensures RoleRowsDistinct(db.rows, role.id)
    ensures keys == PersistedKeys(db.catalogue, db.rows, role.id)
    ensures Distinct(keys)
    ensures forall key :: key in keys <==> key in v && FindByKey(db.catalogue, key).Some?
    ensures granted <==> k in v && FindByKey(db.catalogue, k).Some?
    ensures role.pending == Some(keys)
  {
    var _ := role.SetPermissionKeys(Some(v));
    var saved := role.Save(db);
    keys := role.PermissionKeys(db);
    granted := role.Has(db, Key(k), (p: Permission) => "");
    SyncLeavesOtherRoles(old(db.rows), db.catalogue, role.id, v);
    SyncRowsNoDuplicates(old(db.rows), db.catalogue, role.id, v);
    SyncedKeysDistinct(old(db.rows), db.catalogue, role.id, v);
    forall key
      ensures key in keys <==> key in v && FindByKey(db.catalogue, key).Some?
    {
      SyncedKeysExact(old(db.rows), db.catalogue, role.id, v, key);
    }
  }
}
