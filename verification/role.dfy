/** A role: a stable code, display fields, a system flag that protects it from
    deletion, and the set of permissions it grants. */
module Roles {
  import opened Seqs

  /** `permissions` lists permission ids without duplicates (the role's
      permission set). */
  datatype Role = Role(
    id: nat,
    code: string,
    name: string,
    description: Option<string>,
    isActive: bool,
    isSystem: bool,
    permissions: seq<nat>)

  /** The (id, code, name) summary responses carry. */
  datatype RoleSummary = RoleSummary(id: nat, code: string, name: string)

  function Summary(r: Role): RoleSummary {
    RoleSummary(r.id, r.code, r.name)
  }

  /** A role as its constructor defaults make it: active, not a system role,
      no permissions. */
  function NewRole(id: nat, code: string, name: string, description: Option<string>): (r: Role)
    ensures r.id == id && r.code == code && r.name == name && r.description == description
    ensures r.isActive && !r.isSystem && r.permissions == []
  {
    Role(id, code, name, description, true, false, [])
  }
}
