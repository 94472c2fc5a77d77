# Role authorisation model of challah

This project models the role half of challah's role-based access control: the
`authable_role` mixin of `lib/auth/authable/role.rb`. A role holds permissions
through a join table (permission_roles). It answers "can you do X?" from a list
of permission keys, which it reads lazily from its persisted permissions or
takes from an explicit assignment. After every save it writes an assigned list
back to the join table. It also answers dynamic predicates such as `admin?`,
projects itself to a JSON-ready hash, and can be looked up by a free-text name.

The modules follow that structure:

- `Schema` (schema.dfy): the rows of the permissions, roles and join tables;
  `find_by_key`; the order by permission name.
- `Associations` (associations.dfy): the `Store` class holding the permissions
  table and the join table. Also the `permission_roles.clear` deletion and the
  `permissions` association (join, then sort by name).
- `Sync` (sync.dfy): `uniq`, the rows the after-save loop creates, and the
  table the hook must leave. Lemmas prove the exact row set, no duplicates,
  other roles untouched and idempotence.
- `PermissionCheck` (permission_check.dfy): `permission?`, as written and as intended.
- `PredicateNames` (predicate_names.dfy): the name test of `method_missing`,
  as written and as intended.
- `RoleLookup` (role_lookup.dfy): `Role[value]` and its name canonicalisation.
- `Roles` (roles.dfy): the `Role` class with the `@permission_keys` cache
  (`pending`), the reader, the writer, `has`, `method_missing`, the after-save
  hook (a loop over the distinct keys), `save` with its presence validation,
  and `as_json`.

In these respects the model follows the code, which a reader might expect
to behave otherwise:

- The hook is not only triggered by an explicit assignment. Any read of
  `permission_keys` before a save fills the cache with an array, so the next
  save clears the role's rows and recreates them from those keys.
  `Sync.ResaveKeepsKeys` proves this leaves the role's keys as they were.
- The hook clears all of the role's rows and recreates them. It does not diff
  them, and it has no transaction or error path.
- `method_missing` ignores the call's arguments and block. Only the method name
  decides between `has` and `super`.
- Role names are validated for presence only, not for uniqueness. `Role[...]`
  returns the first role with the name.

## Model

| member | source | states |
|---|---|---|
| Schema.FindByKey | lib/auth/authable/role.rb:83 | a found permission is in the catalogue and has the key; nil exactly when no permission has the key |
| Schema.SortByName | lib/auth/authable/role.rb:20 | the result is a permutation of the input whose names never decrease |
| Associations.ClearRole | lib/auth/authable/role.rb:80 | a row survives the clear iff it was in the table and belongs to another role |
| Associations.RolePermissions | lib/auth/authable/role.rb:19-20 | the role's permissions are in name order, and each is a catalogue entry linked to the role by a join row |
| Associations.RolePermissionsMembers | lib/auth/authable/role.rb:19-20 | a permission belongs to the role iff it is in the catalogue and a join row links it to the role |
| Associations.RolePermissionsDistinct | lib/auth/authable/role.rb:19-20 | when no two of the role's rows share a permission id, each permission is listed once |
| Associations.PersistedKeysMembers | lib/auth/authable/role.rb:37 | a key is among the persisted keys iff a catalogue permission with that key is linked to the role |
| Sync.Uniq | lib/auth/authable/role.rb:82 | the result holds the same keys as the input, each once |
| Sync.RowsForMembers | lib/auth/authable/role.rb:82-88 | the loop creates a row for the role and permission id P iff some key in the list resolves to P; unknown keys create nothing |
| Sync.SyncRowsExact | lib/auth/authable/role.rb:80-88 | after the sync, the rows are the other roles' old rows plus one row per desired key that is in the catalogue |
| Sync.SyncRowsNoDuplicates | lib/auth/authable/role.rb:82-86 | after the sync, no two of the role's rows share a permission id, even when the key list repeats keys |
| Sync.SyncLeavesOtherRoles | lib/auth/authable/role.rb:80-86 | the rows of all other roles are unchanged, in the same order |
| Sync.SyncIdempotent | lib/auth/authable/role.rb:78-93 | syncing twice with the same key list leaves the same table as syncing once |
| Sync.SyncedKeysExact | lib/auth/authable/role.rb:82-92 | after the sync, a key is persisted for the role iff it was desired and the catalogue knows it |
| Sync.SyncedKeysDistinct | lib/auth/authable/role.rb:82-92 | after the sync, the keys read back hold each key once, even when the key list repeats keys |
| Sync.ResaveKeepsKeys | lib/auth/authable/role.rb:79-92 | saving back the keys just read keeps exactly the role's persisted keys |
| Roles.RowQueryMeansLinked | lib/auth/authable/role.rb:47-49 | intended check: with unique keys, asking a role about a catalogue Permission answers whether a join row links the role to it |
| PermissionCheck.QueriesAgreeOnKeys | lib/auth/authable/role.rb:47-49 | with a key argument, the check as written and as intended both answer "is the key in the list" |
| PermissionCheck.QueryAsWrittenMissesRow | lib/auth/authable/role.rb:48-49 | as written, a role holding "admin" is refused for the "admin" Permission when its `to_s` is not its key |
| PredicateNames.DeleteQuestionMarks | lib/auth/authable/role.rb:70 | the result holds exactly the characters of the name other than `?` |
| PredicateNames.Dispatch | lib/auth/authable/role.rb:69-72 | a name dispatches iff it is `[a-z_]*` followed by `?`; the key is the name without the `?`; any other name is an error |
| PredicateNames.DispatchRoundTrip | lib/auth/authable/role.rb:63-70 | for every key of lower-case letters and underscores, the predicate `key?` asks about that key |
| PredicateNames.AsWrittenAgreesWithoutNewline | lib/auth/authable/role.rb:70 | for names without a newline, Ruby's line-anchored match and the whole-name match dispatch alike |
| PredicateNames.AsWrittenAcceptsMultilineName | lib/auth/authable/role.rb:70 | as written, "A\nb?" asks `has("A\nb")`; the whole-name reading rejects it |
| RoleLookup.LStrip | lib/auth/authable/role.rb:30 | the result is the suffix left after removing all leading whitespace (tab to carriage return and space, not NUL) |
| RoleLookup.RStrip | lib/auth/authable/role.rb:30 | the result is the prefix left after removing all trailing whitespace and NUL |
| RoleLookup.FindByName | lib/auth/authable/role.rb:30 | a found role is in the table and has the name; nil exactly when no role has the name |
| RoleLookup.Lookup | lib/auth/authable/role.rb:29-31 | a found role's name is the title-cased canonical form of the input; nil exactly when no role has it |
| RoleLookup.CanonicalForm | lib/auth/authable/role.rb:30 | a canonical name has no surrounding whitespace, no space and no ASCII upper-case letter |
| RoleLookup.CanonicalizeIdempotent | lib/auth/authable/role.rb:30 | canonicalising a canonical name changes nothing |
| RoleLookup.LookupIgnoresCase | lib/auth/authable/role.rb:30 | names equal up to ASCII case find the same role |
| RoleLookup.LookupIgnoresPadding | lib/auth/authable/role.rb:30 | leading whitespace and trailing whitespace or NUL do not change the role found |
| Roles.AsJsonPermissions | lib/auth/authable/role.rb:54-60 | the projection keeps id, name and description; it lists the ids of the role's permissions position by position, so in their name order, and an id appears iff a join row links the role to that catalogue permission |
| Roles.Role.PermissionKeys | lib/auth/authable/role.rb:36-38 | returns the cached keys, or else the persisted keys in name order, and caches what it returns |
| Roles.Role.SetPermissionKeys | lib/auth/authable/role.rb:41-44 | the cache becomes the assigned value, which is returned |
| Roles.Role.Has | lib/auth/authable/role.rb:47-51 | granted iff the argument's `to_s` is in what the reader returns: the key itself for a key, Permission's `to_s` for a Permission row; the reader's caching applies |
| Roles.Role.MethodMissing | lib/auth/authable/role.rb:69-72 | a name with a line of the shape `[a-z_]*?` answers whether the name without its `?`s is held; any other name raises NoMethodError and changes nothing; for names without a newline, exactly the predicate names `key?` answer |
| Roles.Role.SavePermissionKeys | lib/auth/authable/role.rb:78-94 | with no cached keys it changes nothing; otherwise the table becomes the sync of the cached keys, the cache is reset, and the refreshed keys are returned |
| Roles.Role.Save | lib/auth/authable/role.rb:16-24 | saves iff name and default path are present (some character outside Ruby 1.9's `[:space:]`); an invalid role changes nothing; a saved role runs the after-save hook |
| Roles.AssignThenCheck | lib/auth/authable/role.rb:36-49 | after `permission_keys = v`, the reader returns `v`, and `has(k)` holds iff `k` is in `v` |
| Roles.AssignSaveThenCheck | lib/auth/authable/role.rb:36-92 | after assigning `v` and saving, the role holds exactly the known keys of `v`, each once and without duplicate rows; other roles' rows are unchanged and `has(k)` agrees |

## Findings

| source | as written | input that shows it | evidently intended | confidence | as-written member | corrected member |
|---|---|---|---|---|---|---|
| lib/auth/authable/role.rb:48-49 | `permission?` resolves a Permission argument to its key, then tests `key.to_s` instead, so the resolved key is never used | `has(p)` for a Permission p with key "admin", on a role holding ["admin"], where p's `to_s` is the default object description | test the resolved key: the answer is yes | medium: depends on Permission's `to_s`, which is not part of this model; not executed | PermissionCheck.QueryAsWrittenMissesRow | Roles.RowQueryMeansLinked |
| lib/auth/authable/role.rb:70 | `/^[a-z_]*\?$/` uses Ruby's line anchors, so a name passes when any one of its lines is a predicate name | the method name "A\nb?" (reachable through `send`) answers `has("A\nb")` instead of raising NoMethodError | match the whole name (`\A...\z`) | medium: only names built with `send` can contain a newline; not executed | PredicateNames.AsWrittenAcceptsMultilineName | PredicateNames.DispatchRoundTrip |

The `Role` class follows the code as written: `Roles.Role.Has` tests `to_s`,
and `Roles.Role.MethodMissing` uses the line-anchored match. The corrected
definitions are `PermissionCheck.PermissionQuery` and `PredicateNames.Dispatch`.
`PermissionCheck.QueriesAgreeOnKeys` and `PredicateNames.AsWrittenAgreesWithoutNewline`
show where each agrees with the code.

## Left out

- The Rails engine setup in lib/challah/railtie.rb and the test harness in test/helper.rb are not part of this model. They are framework wiring and I/O.
- ActiveRecord mechanics are not modelled: SQL order strings, `has_many :users`, `default_scope`, association reload flags and the callback wiring. The effects on the tables are modelled on the `Store` instead.
- The cascade delete of a role's join rows (`:dependent => :destroy`) is not modelled. Destroying roles is outside this core.
- `save` persisting the role's own attributes is not modelled. Only its validation and its after-save hook are.
- Transactions, a `create` that fails part-way, and concurrent syncs of one role are not modelled. The code has no transaction logic.
- `titleize` belongs to the framework's inflector. It is a parameter of `RoleLookup.Lookup`, so the lookup lemmas hold for any title-casing.
- JSON encoding by `as_json(options)` is not modelled. `Roles.AsJson` builds the hash as a record.
- `permission_keys=` can store any Ruby value, and the hook acts only on arrays. The model admits only nil or an array of strings. Symbols in the array are not modelled either: Ruby's `include?` would not match them against the string key.
- `ORDER BY permissions.name` is modelled as code-point lexicographic order, which stands in for the database collation. Permissions with equal names are kept in insertion-sort order, while the database may order them differently.
- Schema.FindByKey: when several permissions share a key, the model returns the first in catalogue order; the database may return any of them.
- String semantics are those of Ruby 1.9, the Ruby the code targets. `downcase` maps only 'A' to 'Z', while Ruby 2.4 and later map all of Unicode. `lstrip` removes tab, line feed, vertical tab, form feed, carriage return and space, and `rstrip` removes those and NUL. Blank for the presence check means made only of characters in `[:space:]`: tab to carriage return, next line, and the Unicode 6.0 space, line and paragraph separators. Later Unicode versions changed that set (U+180E left it), which is not modelled.
- Permission's `to_s` is not part of this model. It is a parameter of `PermissionCheck.PermissionQueryAsWritten` and `Roles.Role.Has`.
- `super` in `method_missing` is modelled as NoMethodError. The framework's own dynamic attribute methods, which `super` could reach, are not modelled.
