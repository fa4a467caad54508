/** The records the data-access layer stores, its predefined roles and its errors. */
module Entities {

  datatype Option<T> = None | Some(value: T)

  /** The errors the layer returns: the three validation errors, a missing
      row, and any other failure of the underlying store. */
  datatype Error = NameMissed | OwnerIDMissed | NotExistedAccount | NotFound | StoreError

  /** A value or the error that replaced it. */
  datatype Result<T> = Ok(value: T) | Err(error: Error)

  /** A tenant. Timestamps are Unix seconds; `updatedAt` is absent until
      the first update. */
  datatype Account = Account(id: string, name: string, disabled: bool, createdAt: int, updatedAt: Option<int>)

  /** A user's membership of an account, with a free-form role. */
  datatype Member = Member(id: string, accountID: string, userID: string, role: string, createdAt: int)

  const RoleOwner: string := "owner"
  const RoleAdmin: string := "admin"
  const RoleManager: string := "manager"
  const RoleUser: string := "user"
  const RoleGuest: string := "guest"
}
