/**
 * The database as the role core sees it, and the two associations of a role it
 * reads and writes: `permission_roles` (the role's join rows) and `permissions`
 * (the permissions those rows point at, ordered by name).
 */
module Associations {
  import opened Wrappers
  import opened Schema

  /** The permissions table and the permission_roles join table. */
  class Store {
    var catalogue: seq<Permission>
    var rows: seq<JoinRow>

    /** What the permissions table's primary key guarantees. */
    predicate Valid()
      reads this
    {
      IdsUnique(catalogue)
    }

    constructor (catalogue: seq<Permission>, rows: seq<JoinRow>)
      requires IdsUnique(catalogue)
      ensures Valid()
      ensures this.catalogue == catalogue && this.rows == rows
    {
      this.catalogue := catalogue;
      this.rows := rows;
    }
  }

  /** The join table after `permission_roles.clear`: every row of the role deleted, the rest kept in order. */
  function ClearRole(rows: seq<JoinRow>, roleId: nat): (r: seq<JoinRow>)
    ensures forall row :: row in r <==> row in rows && row.roleId != roleId
    ensures |r| <= |rows|
  {
    if rows == [] then []
    else
      var last := rows[|rows| - 1];
      assert rows == rows[..|rows| - 1] + [last];
      var rest := ClearRole(rows[..|rows| - 1], roleId);
      if last.roleId == roleId then rest else rest + [last]
  }

  lemma {:induction false} ClearRoleAppend(a: seq<JoinRow>, b: seq<JoinRow>, roleId: nat)
    ensures ClearRole(a + b, roleId) == ClearRole(a, roleId) + ClearRole(b, roleId)
  {
    if b != [] {
      var init := b[..|b| - 1];
      assert (a + b)[..|a + b| - 1] == a + init;
      ClearRoleAppend(a, init, roleId);
    } else {
      assert a + b == a;
    }
  }

  lemma {:induction false} ClearRoleOfOwnRows(rows: seq<JoinRow>, roleId: nat)
    requires forall row :: row in rows ==> row.roleId == roleId
    ensures ClearRole(rows, roleId) == []
  {
    if rows != [] {
      assert rows[|rows| - 1] in rows;
      ClearRoleOfOwnRows(rows[..|rows| - 1], roleId);
    }
  }

  /** Clearing a role's rows twice deletes nothing more. */
  lemma {:induction false} ClearRoleTwice(rows: seq<JoinRow>, roleId: nat)
    ensures ClearRole(ClearRole(rows, roleId), roleId) == ClearRole(rows, roleId)
  {
    if rows != [] {
      var init := rows[..|rows| - 1];
      var last := rows[|rows| - 1];
      ClearRoleTwice(init, roleId);
      if last.roleId != roleId {
        ClearRoleAppend(ClearRole(init, roleId), [last], roleId);
      }
    }
  }

  /**
   * The permissions reached through the role's join rows (an inner join on
   * `permission_id`), one per row, in join-table order; rows whose permission
   * is missing from the catalogue join nothing.
   */
  function Joined(catalogue: seq<Permission>, rows: seq<JoinRow>, roleId: nat): (r: seq<Permission>)
    ensures forall p :: p in r ==> p in catalogue && JoinRow(roleId, p.id) in rows
  {
    if rows == [] then []
    else
      var last := rows[|rows| - 1];
      assert rows == rows[..|rows| - 1] + [last];
      var rest := Joined(catalogue, rows[..|rows| - 1], roleId);
      if last.roleId != roleId then rest
      else match FindById(catalogue, last.permissionId)
        case Some(p) => rest + [p]
        case None => rest
  }

  lemma {:induction false} JoinedComplete(catalogue: seq<Permission>, rows: seq<JoinRow>, roleId: nat, p: Permission)
    requires IdsUnique(catalogue) && p in catalogue && JoinRow(roleId, p.id) in rows
    ensures p in Joined(catalogue, rows, roleId)
  {
    var init := rows[..|rows| - 1];
    var last := rows[|rows| - 1];
    assert rows == init + [last];
    if last == JoinRow(roleId, p.id) {
      var q := FindById(catalogue, p.id);
      SameIdSamePermission(catalogue, p, q.value);
    } else {
      JoinedComplete(catalogue, init, roleId, p);
    }
  }

  /** No two of the role's join rows point at the same permission. */
  predicate RoleRowsDistinct(rows: seq<JoinRow>, roleId: nat)
  {
    forall i, j :: 0 <= i < j < |rows| && rows[i].roleId == roleId && rows[j].roleId == roleId ==>
      rows[i].permissionId != rows[j].permissionId
  }

  /** The join yields one permission per row, so distinct rows join distinct permissions. */
  lemma {:induction false} JoinedDistinct(catalogue: seq<Permission>, rows: seq<JoinRow>, roleId: nat)
    requires RoleRowsDistinct(rows, roleId)
    ensures Distinct(Joined(catalogue, rows, roleId))
  {
    if rows != [] {
      var init := rows[..|rows| - 1];
      var last := rows[|rows| - 1];
      assert rows == init + [last];
      assert RoleRowsDistinct(init, roleId);
      JoinedDistinct(catalogue, init, roleId);
      var rest := Joined(catalogue, init, roleId);
      if last.roleId == roleId && FindById(catalogue, last.permissionId).Some? {
        var p := FindById(catalogue, last.permissionId).value;
        forall q | q in rest
          ensures q != p
        {
          var i :| 0 <= i < |init| && init[i] == JoinRow(roleId, q.id);
          assert rows[i] == init[i];
        }
        assert Distinct(rest + [p]);
      }
    }
  }

  /** `role.permissions`: the joined permissions, ordered by name. */
  function RolePermissions(catalogue: seq<Permission>, rows: seq<JoinRow>, roleId: nat): (r: seq<Permission>)
    ensures SortedByName(r)
    ensures forall p :: p in r ==> p in catalogue && JoinRow(roleId, p.id) in rows
  {
    var joined := Joined(catalogue, rows, roleId);
    var r := SortByName(joined);
    assert forall p :: p in r ==> p in multiset(joined);
    r
  }

  /** The role's permissions are exactly the catalogue entries one of its join rows points at. */
  lemma RolePermissionsMembers(catalogue: seq<Permission>, rows: seq<JoinRow>, roleId: nat, p: Permission)
    requires IdsUnique(catalogue)
    ensures p in RolePermissions(catalogue, rows, roleId) <==> p in catalogue && JoinRow(roleId, p.id) in rows
  {
    if p in catalogue && JoinRow(roleId, p.id) in rows {
      JoinedComplete(catalogue, rows, roleId, p);
      assert p in multiset(Joined(catalogue, rows, roleId));
    }
  }

  /** When the role's rows are distinct, its permissions are listed once each. */
  lemma RolePermissionsDistinct(catalogue: seq<Permission>, rows: seq<JoinRow>, roleId: nat)
    requires RoleRowsDistinct(rows, roleId)
    ensures Distinct(RolePermissions(catalogue, rows, roleId))
  {
    var joined := Joined(catalogue, rows, roleId);
    JoinedDistinct(catalogue, rows, roleId);
    forall x | true
      ensures multiset(RolePermissions(catalogue, rows, roleId))[x] <= 1
    {
      DistinctMultiplicity(joined, x);
    }
    MultiplicityDistinct(RolePermissions(catalogue, rows, roleId));
  }

  /** `collect(&:key)`. */
  function Keys(ps: seq<Permission>): (r: seq<string>)
    ensures |r| == |ps| && forall i :: 0 <= i < |ps| ==> r[i] == ps[i].key
  {
    if ps == [] then [] else [ps[0].key] + Keys(ps[1..])
  }

  /** `permissions.collect(&:key)`: the keys of the role's persisted permissions, in name order. */
  function PersistedKeys(catalogue: seq<Permission>, rows: seq<JoinRow>, roleId: nat): (r: seq<string>)
  {
    Keys(RolePermissions(catalogue, rows, roleId))
  }

  /** A key is persisted for the role iff some catalogue entry with that key is linked to it. */
  lemma PersistedKeysMembers(catalogue: seq<Permission>, rows: seq<JoinRow>, roleId: nat, k: string)
    requires IdsUnique(catalogue)
    ensures k in PersistedKeys(catalogue, rows, roleId) <==>
            exists p :: p in catalogue && p.key == k && JoinRow(roleId, p.id) in rows
  {
    var ps := RolePermissions(catalogue, rows, roleId);
    var keys := Keys(ps);
    if k in keys {
      var i :| 0 <= i < |keys| && keys[i] == k;
      assert ps[i] in ps;
    }
    if p :| p in catalogue && p.key == k && JoinRow(roleId, p.id) in rows {
      RolePermissionsMembers(catalogue, rows, roleId, p);
      var i :| 0 <= i < |ps| && ps[i] == p;
      assert keys[i] == k;
    }
  }
}
