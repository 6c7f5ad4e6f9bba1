/** The `User` document: a wallet address and the nation it belongs to, if any. */
module UserModel {
  import opened Wrappers
  import opened Text
  import opened NationModel

  datatype User = User(address: string, nationId: Option<NationId>, createdAt: nat)

  /** The schema's guarantees for a stored user: the address is present and lower-case. */
  predicate StoredAddress(address: string)
  {
    address != "" && Lower(address) == address
  }

  /**
   * A new document from `User.create({ address })`: the schema lower-cases the
   * address and `nationId` defaults to null.
   */
  function NewUser(address: string, createdAt: nat): (u: User)
    ensures address != "" ==> StoredAddress(u.address)
    ensures u.address == Lower(address) && |u.address| == |address|
    ensures u.nationId.None?
  {
    LowerIdempotent(address);
    User(Lower(address), None, createdAt)
  }
}
