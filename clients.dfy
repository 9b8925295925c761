/** newClient: the ALEKS client value and its construction checks. */
module Clients {
  import opened Errors

  /** AleksDefaultURL. */
  const DefaultUrl: string := "https://secure.aleks.com/xmlrpc"

  const CredentialsMessage: string := "username and password parameters are both required"

  /** Client: the XML-RPC endpoint, the credentials sent with every call and
      the HTTP round-tripper of type T the XML-RPC client is built with. */
  datatype Client<T> = Client(url: string, username: string, password: string, trans: T)

  /** Why newClient returns no client: url.Parse's error, or missing credentials. */
  datatype ClientError = UrlError(cause: Failure) | MissingCredentials

  function ClientErrorText(e: ClientError): Option<string>
  {
    match e
    case MissingCredentials => Some(CredentialsMessage)
    case UrlError(_) => None
  }

  /** The URL newClient goes on with: AleksDefaultURL when none is given,
      any other URL verbatim. */
  function EffectiveUrl(url: string): (u: string)
    ensures u != ""
    ensures url != "" ==> u == url
    ensures url == "" ==> u == "https://secure.aleks.com/xmlrpc"
  {
    if url == "" then DefaultUrl else url
  }

  /** newClient(url, username, password, trans); `parseUrl` is the error
      url.Parse returns for a text, if any. It succeeds exactly when the
      defaulted URL parses and both credentials are non-empty, and the client
      then holds exactly its inputs; a URL that does not parse is reported
      whatever the credentials are; otherwise missing credentials are
      reported with their fixed message. */
  function NewClient<T>(url: string, username: string, password: string, trans: T, parseUrl: string -> Option<Failure>)
    : (r: Result<Client<T>, ClientError>)
    ensures r.Ok? <==> parseUrl(EffectiveUrl(url)).None? && username != "" && password != ""
    ensures r.Ok? ==> r.value == Client(EffectiveUrl(url), username, password, trans)
    ensures parseUrl(EffectiveUrl(url)).Some? ==> r == Err(UrlError(parseUrl(EffectiveUrl(url)).value))
    ensures parseUrl(EffectiveUrl(url)).None? && (username == "" || password == "") ==>
      r.Err? && ClientErrorText(r.error) == Some("username and password parameters are both required")
  {
    var url := EffectiveUrl(url);
    match parseUrl(url)
    case Some(cause) => Err(UrlError(cause))
    case None =>
      if username == "" || password == "" then Err(MissingCredentials)
      else Ok(Client(url, username, password, trans))
  }
}
