/**
 * JpaAuthenticationProvider: HTTP basic credentials checked against the
 * users table in plain text, through findByUsernameAndPassword.
 */
module Components {
  import opened Wrappers
  import opened Entities
  import opened Repositories

  /** A Spring Security token class, by its fully qualified name. */
  datatype TokenClass = TokenClass(name: string)

  const USERNAME_PASSWORD_TOKEN: TokenClass :=
    TokenClass("org.springframework.security.authentication.UsernamePasswordAuthenticationToken")

  /**
   * Spring Security's Authentication, reduced to what the provider reads and
   * builds.  For a token whose principal is a plain string, getName() is that
   * string.
   */
  datatype Authentication = Authentication(
    tokenClass: TokenClass,
    principal: string,
    credentials: string,
    authorities: set<string>,
    authenticated: bool)

  datatype AuthenticationError = AuthenticationCredentialsNotFound(message: string)

  const WRONG_CREDENTIALS: string := "Wrong credentials."

  /**
   * JpaAuthenticationProvider.authenticate.  On success a new
   * UsernamePasswordAuthenticationToken is built from the input's principal,
   * credentials and authorities; its three-argument constructor marks it
   * authenticated.  Every failure carries the same message, so an unknown
   * username cannot be told from a wrong password.  The function only reads
   * the users table.
   */
  function Authenticate(users: seq<User>, authentication: Authentication): (r: Result<Authentication, AuthenticationError>)
    reads users
    ensures r.Success? <==> (exists u :: u in users
                                 && u.username == Some(authentication.principal)
                                 && u.password == Some(authentication.credentials))
    ensures r.Success? ==> && r.value.tokenClass == USERNAME_PASSWORD_TOKEN
                           && r.value.principal == authentication.principal
                           && r.value.credentials == authentication.credentials
                           && r.value.authorities == authentication.authorities
                           && r.value.authenticated
    ensures r.Failure? ==> r.error == AuthenticationCredentialsNotFound(WRONG_CREDENTIALS)
  {
    var found := FindByUsernameAndPassword(users, authentication.principal, authentication.credentials);
    if found.Some? then
      Success(Authentication(USERNAME_PASSWORD_TOKEN, authentication.principal,
                             authentication.credentials, authentication.authorities, true))
    else
      Failure(AuthenticationCredentialsNotFound(WRONG_CREDENTIALS))
  }

  /** JpaAuthenticationProvider.supports: Class.equals, so subclasses are not supported. */
  function Supports(authentication: TokenClass): (r: bool)
    ensures r <==> authentication.name == USERNAME_PASSWORD_TOKEN.name
  {
    authentication == USERNAME_PASSWORD_TOKEN
  }

  /**
   * Against a users table with unique usernames, authentication succeeds
   * exactly when the username is known and its stored password is the one
   * supplied; an unknown username and a wrong password give one and the same
   * failure.
   */
  lemma AuthenticateIsUsernameLookupThenPasswordCheck(users: seq<User>, authentication: Authentication)
    requires UniqueUsernames(users)
    ensures var known := FindByUsername(users, authentication.principal);
      Authenticate(users, authentication)
        == if known.Some? && known.value.password == Some(authentication.credentials)
           then Success(Authentication(USERNAME_PASSWORD_TOKEN, authentication.principal,
                                       authentication.credentials, authentication.authorities, true))
           else Failure(AuthenticationCredentialsNotFound(WRONG_CREDENTIALS))
  {
    CredentialLookupAgreesWithUsernameLookup(users, authentication.principal, authentication.credentials);
  }
}
