/**
 * The rows of the three tables the role core works on (permissions, roles and the
 * permission_roles join table), the lookups it makes into the permissions table,
 * and the order by permission name in which the `permissions` association lists them.
 */
module Schema {
  import opened Wrappers

  /** A row of the permissions table: `key` is the token checks use, `name` the label. */
  datatype Permission = Permission(id: nat, key: string, name: string)

  /** A row of the permission_roles join table. */
  datatype JoinRow = JoinRow(roleId: nat, permissionId: nat)

  /** The persisted attributes of a role; a `None` attribute is a NULL column. */
  datatype RoleRecord = RoleRecord(
    id: nat,
    name: Option<string>,
    description: Option<string>,
    defaultPath: Option<string>)

  /** `id` is the primary key of the permissions table. */
  predicate IdsUnique(catalogue: seq<Permission>)
  {
    forall i, j :: 0 <= i < j < |catalogue| ==> catalogue[i].id != catalogue[j].id
  }

  lemma SameIdSamePermission(catalogue: seq<Permission>, p: Permission, q: Permission)
    requires IdsUnique(catalogue) && p in catalogue && q in catalogue && p.id == q.id
    ensures p == q
  {
    var i :| 0 <= i < |catalogue| && catalogue[i] == p;
    var j :| 0 <= j < |catalogue| && catalogue[j] == q;
    assert !(i < j) && !(j < i);
  }

  /** Keys are meant to be unique across the permissions table. */
  predicate KeysUnique(catalogue: seq<Permission>)
  {
    forall i, j :: 0 <= i < j < |catalogue| ==> catalogue[i].key != catalogue[j].key
  }

  lemma SameKeySamePermission(catalogue: seq<Permission>, p: Permission, q: Permission)
    requires KeysUnique(catalogue) && p in catalogue && q in catalogue && p.key == q.key
    ensures p == q
  {
    var i :| 0 <= i < |catalogue| && catalogue[i] == p;
    var j :| 0 <= j < |catalogue| && catalogue[j] == q;
    assert !(i < j) && !(j < i);
  }

  predicate Distinct<T(==)>(s: seq<T>)
  {
    forall i, j :: 0 <= i < j < |s| ==> s[i] != s[j]
  }

  lemma {:induction false} DistinctMultiplicity<T>(s: seq<T>, x: T)
    requires Distinct(s)
    ensures multiset(s)[x] <= 1
  {
    if s != [] {
      var init := s[..|s| - 1];
      assert s == init + [s[|s| - 1]];
      assert Distinct(init);
      DistinctMultiplicity(init, x);
      assert s[|s| - 1] !in init by {
        forall i | 0 <= i < |init| ensures init[i] != s[|s| - 1] { assert init[i] == s[i]; }
      }
    }
  }

  lemma MultiplicityDistinct<T>(s: seq<T>)
    requires forall x :: multiset(s)[x] <= 1
    ensures Distinct(s)
  {
    forall i, j | 0 <= i < j < |s|
      ensures s[i] != s[j]
    {
      assert s == s[..j] + [s[j]] + s[j + 1..];
      assert s[i] in multiset(s[..j]);
      assert multiset(s)[s[j]] == multiset(s[..j])[s[j]] + 1 + multiset(s[j + 1..])[s[j]];
    }
  }

  /** `Permission.find_by_key(key)`: the first permission with that key, or nil. */
  function FindByKey(catalogue: seq<Permission>, key: string): (r: Option<Permission>)
    ensures r.Some? ==> r.value in catalogue && r.value.key == key
    ensures r.None? <==> forall p :: p in catalogue ==> p.key != key
  {
    if catalogue == [] then None
    else if catalogue[0].key == key then Some(catalogue[0])
    else FindByKey(catalogue[1..], key)
  }

  /** The permission a join row's `permission_id` refers to, or nil. */
  function FindById(catalogue: seq<Permission>, id: nat): (r: Option<Permission>)
    ensures r.Some? ==> r.value in catalogue && r.value.id == id
    ensures r.None? <==> forall p :: p in catalogue ==> p.id != id
  {
    if catalogue == [] then None
    else if catalogue[0].id == id then Some(catalogue[0])
    else FindById(catalogue[1..], id)
  }

  /** Lexicographic order on names by code point, the order `ORDER BY permissions.name` is modelled with. */
  predicate NameLe(a: string, b: string)
  {
    |a| == 0 || (|b| > 0 && (a[0] < b[0] || (a[0] == b[0] && NameLe(a[1..], b[1..]))))
  }

  lemma {:induction false} NameLeTotal(a: string, b: string)
    ensures NameLe(a, b) || NameLe(b, a)
  {
    if |a| > 0 && |b| > 0 && a[0] == b[0] {
      NameLeTotal(a[1..], b[1..]);
    }
  }

  predicate SortedByName(ps: seq<Permission>)
  {
    forall i :: 0 <= i < |ps| - 1 ==> NameLe(ps[i].name, ps[i + 1].name)
  }

  function InsertByName(p: Permission, ps: seq<Permission>): (r: seq<Permission>)
    requires SortedByName(ps)
    ensures SortedByName(r)
    ensures multiset(r) == multiset(ps) + multiset{p}
    ensures r[0] == p || (|ps| > 0 && r[0] == ps[0])
  {
    if ps == [] then [p]
    else if NameLe(p.name, ps[0].name) then [p] + ps
    else
      NameLeTotal(p.name, ps[0].name);
      var tail := InsertByName(p, ps[1..]);
      assert ps == [ps[0]] + ps[1..];
      [ps[0]] + tail
  }

  /** The rows sorted by name: a permutation of `ps` whose names never decrease. */
  function SortByName(ps: seq<Permission>): (r: seq<Permission>)
    ensures SortedByName(r)
    ensures multiset(r) == multiset(ps)
  {
    if ps == [] then []
    else
      assert ps == [ps[0]] + ps[1..];
      InsertByName(ps[0], SortByName(ps[1..]))
  }
}
