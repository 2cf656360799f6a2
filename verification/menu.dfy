/** Menus. A stored row points at its parent and at an optional required
    permission; the tree the services traverse is the rows loaded with their
    children, each child list ordered by sort order. */
module Menus {
  import opened Seqs
  import opened Permissions

  /** A menu node as loaded with its required permission and children. */
  datatype Menu = Menu(
    id: nat,
    name: string,
    code: string,
    path: Option<string>,
    icon: Option<string>,
    sortOrder: int,
    isActive: bool,
    requiredPermission: Option<Permission>,
    children: seq<Menu>)

  /** A menu as stored: parent and permission are references by id. The
      administration operations work on a table of these rows; the loaded
      `Menu` trees that the authority pruning reads are a separate input,
      not rebuilt from the rows. */
  datatype MenuRow = MenuRow(
    id: nat,
    name: string,
    code: string,
    path: Option<string>,
    icon: Option<string>,
    parentId: Option<nat>,
    sortOrder: int,
    isActive: bool,
    permissionId: Option<nat>)
}
