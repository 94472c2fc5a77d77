/**
 * `permission?` (alias `has`): does a list of permission keys grant the key the
 * caller names? The caller names it by a key (a string or symbol) or by a
 * Permission row. As written the code resolves a Permission to its key but then
 * tests the argument's `to_s` instead; `PermissionQueryAsWritten` keeps that,
 * and the role uses it; `PermissionQuery` tests the resolved key.
 */
module PermissionCheck {
  import opened Schema

  /** The argument of `permission?`: a key (string or symbol) or a Permission row. */
  datatype PermissionArg = Key(text: string) | Row(permission: Permission)

  /** `symbolized_key`: the key a Permission argument stands for, or the key itself. */
  function ResolveKey(arg: PermissionArg): string
  {
    match arg
    case Key(text) => text
    case Row(p) => p.key
  }

  /**
   * `permission?` as written: it tests `key.to_s`, so a Permission argument is
   * looked up by its `to_s` (given here as `permissionToS`, which Permission
   * defines outside this model), not by its key.
   */
  function PermissionQueryAsWritten(keys: seq<string>, arg: PermissionArg, permissionToS: Permission -> string): bool
  {
    match arg
    case Key(text) => text in keys
    case Row(p) => permissionToS(p) in keys
  }

  /** `permission?` as evidently intended: resolve the argument to a key, then test membership. */
  function PermissionQuery(keys: seq<string>, arg: PermissionArg): (b: bool)
  {
    ResolveKey(arg) in keys
  }

  /** On a key argument, the only kind the dynamic predicates pass, the code as written is already right. */
  lemma QueriesAgreeOnKeys(keys: seq<string>, text: string, permissionToS: Permission -> string)
    ensures PermissionQueryAsWritten(keys, Key(text), permissionToS) == PermissionQuery(keys, Key(text))
    ensures PermissionQuery(keys, Key(text)) <==> text in keys
  {
  }

  /**
   * A role holding key "admin", asked about the "admin" Permission row whose
   * `to_s` is the default object description, answers no as written and yes as intended.
   */
  lemma QueryAsWrittenMissesRow()
    ensures var keys := ["admin"];
            var p := Permission(1, "admin", "Administrator");
            var toS := (q: Permission) => "#<Permission>";
            !PermissionQueryAsWritten(keys, Row(p), toS) && PermissionQuery(keys, Row(p))
  {
  }
}
