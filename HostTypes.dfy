/** Abstract identities of the host's entities and an optional value. */
module HostTypes {

  /** A host window, by identity. */
  type Window = nat

  /** A workspace, by identity. */
  type Workspace = nat

  /** A launcher icon of the taskbar, by identity. */
  type Icon = nat

  datatype Option<T> = None | Some(value: T)
}
