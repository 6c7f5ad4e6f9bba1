/**
 * The errors the nation API routes return, each with its HTTP status and the
 * message in its JSON body.
 */
module ApiErrors {

  datatype ApiError =
    | WalletAddressRequired        // auth/phantom: no address
    | NameAndAddressRequired       // nations/create: no name or address
    | NationIdAndAddressRequired   // nations/join, nations/delete: no nationId or address
    | AddressRequired              // nations/leave, nations/user: no address
    | MissingRequiredFields        // nations/claim: no nationId, address or territory
    | WalletNotConnected           // create, join, leave, delete: unknown user
    | UserNotFound                 // nations/user: unknown user
    | NationNotFound               // join, delete, claim, user: unknown nation
    | AlreadyHasNation             // create: user already affiliated
    | AlreadyBelongsToNation       // join: user already affiliated
    | NotAMember                   // leave: user unaffiliated
    | FounderCannotLeave           // leave: requester is the founder
    | OnlyFounderCanDelete         // delete: requester is not the founder
    | OnlyFounderCanClaim          // claim: requester is not the founder
    | NationAlreadyHasTerritory    // claim: one-time claim already used
    | TerritoryAlreadyClaimed      // claim: another nation holds the territory
    | DuplicateName                // create: duplicate-key error on the unique `name` index
    | NameRequired                 // create: schema validation, name empty after trimming
    | NameTooLong                  // create: schema validation, name over 50 characters
    | FounderRequired              // create: schema validation, founder address empty
  {
    /** The HTTP status code of the response. */
    function Status(): nat
    {
      match this
      case WalletNotConnected | UserNotFound | NationNotFound => 404
      case OnlyFounderCanDelete | OnlyFounderCanClaim => 403
      case NameRequired | NameTooLong | FounderRequired => 500
      case _ => 400
    }

    /** The `error` string of the JSON body. */
    function Message(): string
    {
      match this
      case WalletAddressRequired => "Wallet address is required"
      case NameAndAddressRequired => "Name and address are required"
      case NationIdAndAddressRequired => "Nation ID and address are required"
      case AddressRequired => "Address is required"
      case MissingRequiredFields => "Missing required fields"
      case WalletNotConnected => "User not found. Please connect your wallet first."
      case UserNotFound => "User not found"
      case NationNotFound => "Nation not found"
      case AlreadyHasNation => "You already have a nation"
      case AlreadyBelongsToNation => "You already belong to a nation"
      case NotAMember => "You are not a member of any nation"
      case FounderCannotLeave => "Founders cannot leave their nation. Please delete the nation instead."
      case OnlyFounderCanDelete => "Only the founder can delete the nation"
      case OnlyFounderCanClaim => "Only the founder can claim territory"
      case NationAlreadyHasTerritory => "Nation already has a territory"
      case TerritoryAlreadyClaimed => "Territory already claimed by another nation"
      case DuplicateName => "A nation with this name already exists"
      case NameRequired => "Nation validation failed: name: Please provide a nation name"
      case NameTooLong => "Nation validation failed: name: Name cannot be more than 50 characters"
      case FounderRequired => "Nation validation failed: founderAddress: Please provide a founder address"
    }

    /** Business-rule failures are client errors; only schema validation surfaces as a server error. */
    predicate IsClientError()
    {
      Status() < 500
    }
  }
}
