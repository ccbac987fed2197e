/** Identifiers and failure-carrying wrappers shared by every module of the model. */
module Types {

  /** The opaque, immutable ID of a node of the outline tree. */
  type NodeId = string

  /** The identity of a panel: it stands both for the object identity the
      workspace compares with `!==` and for the random token it is given. */
  type PanelId = nat

  datatype Option<+T> = None | Some(value: T)

  /** The ways an operation of the workspace can fail loudly. */
  datatype Error =
    | NoPanel   // the node is not displayed in any panel (`n.panel` is undefined)
    | NoScope   // the panel's root has no expansion scope (`expanded[root]` is undefined)

  datatype Result<+T> = Ok(value: T) | Err(error: Error)
}
