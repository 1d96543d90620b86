/** The two kinds of JSON Web Token the service issues, and the strings that
    carry the kind in the private `type` claim. */
module TokenTypes {

  import opened Wrappers

  datatype TokenType = Access | Refresh

  /** `TokenType.toString()`: the value written into the `type` claim. */
  function ClaimValue(t: TokenType): (s: string)
    ensures s == "access_token" <==> t == Access
    ensures s == "refresh_token" <==> t == Refresh
  {
    match t
    case Access => "access_token"
    case Refresh => "refresh_token"
  }

  /** Reads a `type` claim back; any other string names no kind. */
  function KindOf(claim: string): (r: Option<TokenType>)
    ensures r.Some? ==> ClaimValue(r.value) == claim
    ensures claim != "access_token" && claim != "refresh_token" ==> r == None
  {
    if claim == "access_token" then Some(Access)
    else if claim == "refresh_token" then Some(Refresh)
    else None
  }

  /** Rendering is injective: the claim string determines the kind. */
  lemma ClaimValueInjective(a: TokenType, b: TokenType)
    ensures ClaimValue(a) == ClaimValue(b) <==> a == b
  {
    if a != b {
      assert ClaimValue(a)[0] != ClaimValue(b)[0];
    }
  }

  lemma KindOfClaimValue(t: TokenType)
    ensures KindOf(ClaimValue(t)) == Some(t)
  {
  }
}
