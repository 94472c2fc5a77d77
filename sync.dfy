/**
 * What the after-save hook `save_permission_keys` does to the join table when a
 * list of permission keys has been assigned to the role: clear the role's rows,
 * then create one row per distinct key that names a known permission. The hook
 * itself, a loop over the keys, is `Roles.Role.SavePermissionKeys`; this module
 * gives the table it must produce and proves what that table is.
 */
module Sync {
  import opened Wrappers
  import opened Schema
  import opened Associations

  /** Ruby's `Array#uniq`: each element once, at its first occurrence. */
  function Uniq(s: seq<string>): (r: seq<string>)
    ensures forall k :: k in r <==> k in s
    ensures Distinct(r)
    ensures |r| <= |s|
  {
    if s == [] then []
    else
      var last := s[|s| - 1];
      assert s == s[..|s| - 1] + [last];
      var rest := Uniq(s[..|s| - 1]);
      if last in rest then rest else rest + [last]
  }

  /** `key` names the catalogue entry with id `pid` (the one `find_by_key` returns). */
  predicate ResolvesTo(catalogue: seq<Permission>, key: string, pid: nat)
  {
    FindByKey(catalogue, key).Some? && FindByKey(catalogue, key).value.id == pid
  }

  /** The join rows the hook's loop creates for `keys`, in creation order; unknown keys create none. */
  function RowsFor(catalogue: seq<Permission>, roleId: nat, keys: seq<string>): (r: seq<JoinRow>)
    ensures forall row :: row in r ==> row.roleId == roleId
    ensures |r| <= |keys|
  {
    if keys == [] then []
    else
      var rest := RowsFor(catalogue, roleId, keys[..|keys| - 1]);
      match FindByKey(catalogue, keys[|keys| - 1])
      case Some(p) => rest + [JoinRow(roleId, p.id)]
      case None => rest
  }

  lemma {:induction false} RowsForMembers(catalogue: seq<Permission>, roleId: nat, keys: seq<string>, row: JoinRow)
    ensures row in RowsFor(catalogue, roleId, keys) <==>
            row.roleId == roleId && exists k :: k in keys && ResolvesTo(catalogue, k, row.permissionId)
  {
    if keys != [] {
      var init := keys[..|keys| - 1];
      var last := keys[|keys| - 1];
      assert keys == init + [last];
      RowsForMembers(catalogue, roleId, init, row);
      if row.roleId == roleId && ResolvesTo(catalogue, last, row.permissionId) {
        assert row == JoinRow(roleId, FindByKey(catalogue, last).value.id);
      }
    }
  }

  /** Distinct keys create join rows with distinct permission ids. */
  lemma {:induction false} RowsForDistinct(catalogue: seq<Permission>, roleId: nat, keys: seq<string>)
    requires IdsUnique(catalogue) && Distinct(keys)
    ensures Distinct(RowsFor(catalogue, roleId, keys))
  {
    if keys != [] {
      var init := keys[..|keys| - 1];
      var last := keys[|keys| - 1];
      assert keys == init + [last];
      assert Distinct(init);
      RowsForDistinct(catalogue, roleId, init);
      var rest := RowsFor(catalogue, roleId, init);
      match FindByKey(catalogue, last)
      case Some(p) =>
        var row := JoinRow(roleId, p.id);
        if row in rest {
          RowsForMembers(catalogue, roleId, init, row);
          var k :| k in init && ResolvesTo(catalogue, k, p.id);
          SameIdSamePermission(catalogue, p, FindByKey(catalogue, k).value);
          assert false;
        }
        assert Distinct(rest + [row]);
      case None =>
    }
  }

  /** The join table after the hook has synchronised `roleId` with the key list `desired`. */
  function SyncRows(rows: seq<JoinRow>, catalogue: seq<Permission>, roleId: nat, desired: seq<string>): (r: seq<JoinRow>)
  {
    ClearRole(rows, roleId) + RowsFor(catalogue, roleId, Uniq(desired))
  }

  /**
   * After the sync the role's rows are exactly one per desired key known to the
   * catalogue (unknown keys are dropped), and every other row is one that was there before.
   */
  lemma SyncRowsExact(rows: seq<JoinRow>, catalogue: seq<Permission>, roleId: nat, desired: seq<string>, row: JoinRow)
    ensures row in SyncRows(rows, catalogue, roleId, desired) <==>
            (row.roleId != roleId && row in rows) ||
            (row.roleId == roleId && exists k :: k in desired && ResolvesTo(catalogue, k, row.permissionId))
  {
    var u := Uniq(desired);
    RowsForMembers(catalogue, roleId, u, row);
    if row.roleId == roleId && exists k :: k in desired && ResolvesTo(catalogue, k, row.permissionId) {
      var k :| k in desired && ResolvesTo(catalogue, k, row.permissionId);
      assert k in u;
    }
  }

  /** After the sync no two of the role's rows point at the same permission, whatever duplicates `desired` holds. */
  lemma SyncRowsNoDuplicates(rows: seq<JoinRow>, catalogue: seq<Permission>, roleId: nat, desired: seq<string>)
    requires IdsUnique(catalogue)
    ensures RoleRowsDistinct(SyncRows(rows, catalogue, roleId, desired), roleId)
  {
    var cleared := ClearRole(rows, roleId);
    var created := RowsFor(catalogue, roleId, Uniq(desired));
    RowsForDistinct(catalogue, roleId, Uniq(desired));
    var r := cleared + created;
    forall i, j | 0 <= i < j < |r| && r[i].roleId == roleId && r[j].roleId == roleId
      ensures r[i].permissionId != r[j].permissionId
    {
      if i >= |cleared| {
        assert r[i] == created[i - |cleared|] && r[j] == created[j - |cleared|];
      }
    }
  }

  /** The sync leaves the rows of every other role exactly as they were, in order. */
  lemma SyncLeavesOtherRoles(rows: seq<JoinRow>, catalogue: seq<Permission>, roleId: nat, desired: seq<string>)
    ensures ClearRole(SyncRows(rows, catalogue, roleId, desired), roleId) == ClearRole(rows, roleId)
  {
    var created := RowsFor(catalogue, roleId, Uniq(desired));
    ClearRoleAppend(ClearRole(rows, roleId), created, roleId);
    ClearRoleTwice(rows, roleId);
    ClearRoleOfOwnRows(created, roleId);
  }

  /** Synchronising twice with the same key list gives the same table as synchronising once. */
  lemma SyncIdempotent(rows: seq<JoinRow>, catalogue: seq<Permission>, roleId: nat, desired: seq<string>)
    ensures SyncRows(SyncRows(rows, catalogue, roleId, desired), catalogue, roleId, desired) ==
            SyncRows(rows, catalogue, roleId, desired)
  {
    SyncLeavesOtherRoles(rows, catalogue, roleId, desired);
  }

  /** After the sync the role's persisted keys are exactly the desired keys the catalogue knows. */
  lemma SyncedKeysExact(rows: seq<JoinRow>, catalogue: seq<Permission>, roleId: nat, desired: seq<string>, k: string)
    requires IdsUnique(catalogue)
    ensures k in PersistedKeys(catalogue, SyncRows(rows, catalogue, roleId, desired), roleId) <==>
            k in desired && FindByKey(catalogue, k).Some?
  {
    var synced := SyncRows(rows, catalogue, roleId, desired);
    PersistedKeysMembers(catalogue, synced, roleId, k);
    if k in desired && FindByKey(catalogue, k).Some? {
      var p := FindByKey(catalogue, k).value;
      SyncRowsExact(rows, catalogue, roleId, desired, JoinRow(roleId, p.id));
    }
    if p :| p in catalogue && p.key == k && JoinRow(roleId, p.id) in synced {
      SyncRowsExact(rows, catalogue, roleId, desired, JoinRow(roleId, p.id));
      var k' :| k' in desired && ResolvesTo(catalogue, k', p.id);
      SameIdSamePermission(catalogue, p, FindByKey(catalogue, k').value);
    }
  }

  /** After the sync the role's keys read back once each, even when `desired` repeats keys. */
  lemma SyncedKeysDistinct(rows: seq<JoinRow>, catalogue: seq<Permission>, roleId: nat, desired: seq<string>)
    requires IdsUnique(catalogue)
    ensures Distinct(PersistedKeys(catalogue, SyncRows(rows, catalogue, roleId, desired), roleId))
  {
    var synced := SyncRows(rows, catalogue, roleId, desired);
    var ps := RolePermissions(catalogue, synced, roleId);
    SyncRowsNoDuplicates(rows, catalogue, roleId, desired);
    RolePermissionsDistinct(catalogue, synced, roleId);
    forall x | 0 <= x < |ps|
      ensures FindByKey(catalogue, ps[x].key) == Some(ps[x])
    {
      var p := ps[x];
      assert p in ps;
      SyncRowsExact(rows, catalogue, roleId, desired, JoinRow(roleId, p.id));
      var k :| k in desired && ResolvesTo(catalogue, k, p.id);
      SameIdSamePermission(catalogue, p, FindByKey(catalogue, k).value);
    }
    var keys := PersistedKeys(catalogue, synced, roleId);
    forall i, j | 0 <= i < j < |keys|
      ensures keys[i] != keys[j]
    {
      assert ps[i] != ps[j];
    }
  }

  /**
   * Reading the keys and saving them back (which the hook does whenever the
   * reader has filled the cache before a save) keeps the role's permissions.
   */
  lemma ResaveKeepsKeys(rows: seq<JoinRow>, catalogue: seq<Permission>, roleId: nat, k: string)
    requires IdsUnique(catalogue)
    ensures var before := PersistedKeys(catalogue, rows, roleId);
            k in PersistedKeys(catalogue, SyncRows(rows, catalogue, roleId, before), roleId) <==> k in before
  {
    var before := PersistedKeys(catalogue, rows, roleId);
    SyncedKeysExact(rows, catalogue, roleId, before, k);
    PersistedKeysMembers(catalogue, rows, roleId, k);
  }
}
