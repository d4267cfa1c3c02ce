/** preimage.go: which bytes a signature over an entry commits to. */
module Preimages {
  import opened Wrappers
  import opened Xdr

  function GetCredentials(c: Credentials): (r: Result<AddressCredentials, Error>)
    ensures r.Ok? <==> c.HasAddress()
  {
    match c
    case SourceAccount => Err(SourceAccountCredentials)
    case Legacy(creds) => Ok(creds)
    case V2(creds) => Ok(creds)
    case WithDelegateTree(creds, _) => Ok(creds)
    case EmptyAddressArm => Err(EmptyArm)
    case UnknownType => Err(UnsupportedCredentials)
  }

  /** The arms whose preimage names the top-level address (CAP-71-01). */
  predicate AddressBound(c: Credentials) {
    c.V2? || c.WithDelegateTree?
  }

  function Preimage(entry: Entry, expiration: u32, passphrase: string): (r: Result<HashIdPreimage, Error>) {
    if passphrase == "" then Err(EmptyPassphrase)
    else
      var creds :- GetCredentials(entry.credentials);
      if entry.credentials.Legacy? then
        Ok(SorobanAuthorization(NetworkId(passphrase), creds.nonce, expiration, entry.root))
      else
        var _ :- FormatAddress(creds.address);
        Ok(SorobanAuthorizationWithAddress(NetworkId(passphrase), creds.nonce, expiration,
                                           creds.address, entry.root))
  }

  /** The payload an entry rebuilds from its own stored expiration, as the host does. */
  function OwnPayload(entry: Entry, passphrase: string): (r: Result<Payload, Error>)
  {
    var creds :- GetCredentials(entry.credentials);
    var preimage :- Preimage(entry, creds.expiration, passphrase);
    Ok(Sha256(preimage))
  }

  /**
   One entry under two expirations or two networks never has one payload: this is why
   a single node signed at another expiration spoils every other signature of the tree.
   */
  lemma {:induction false} PayloadCommits(entry: Entry, exp1: u32, exp2: u32, pass1: string, pass2: string)
    requires Preimage(entry, exp1, pass1).Ok? && Preimage(entry, exp2, pass2).Ok?
    ensures Sha256(Preimage(entry, exp1, pass1).value) == Sha256(Preimage(entry, exp2, pass2).value)
            <==> exp1 == exp2 && pass1 == pass2
  {
  }
}
