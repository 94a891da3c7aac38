/** Handler selection (src/Fleck/HandlerFactory.cs): read the protocol
    version out of the request headers, then pick the protocol handler for it. */
module HandlerFactory {
  import opened Wire

  const VERSION_HEADER := "Sec-WebSocket-Version"
  const DRAFT_HEADER := "Sec-WebSocket-Draft"
  const KEY1_HEADER := "Sec-WebSocket-Key1"

  datatype HandlerKind = Draft76 | Hybi13

  /** A built handler: its protocol, the request it is bound to, and whether
      the close callback was handed to it. */
  datatype Handler = Handler(kind: HandlerKind, request: HttpRequest, closeWired: bool)

  /** The version string: first match of Version header, Draft header, Key1
      header (meaning draft 76), else "75". */
  function GetVersion(headers: map<string, string>): (version: string)
    ensures VERSION_HEADER in headers ==> version == headers[VERSION_HEADER]
    ensures VERSION_HEADER !in headers && DRAFT_HEADER in headers ==> version == headers[DRAFT_HEADER]
    ensures VERSION_HEADER !in headers && DRAFT_HEADER !in headers ==>
              version == (if KEY1_HEADER in headers then "76" else "75")
  {
    if VERSION_HEADER in headers then headers[VERSION_HEADER]
    else if DRAFT_HEADER in headers then headers[DRAFT_HEADER]
    else if KEY1_HEADER in headers then "76"
    else "75"
  }

  /** The handler for the request's version, or UnsupportedProtocol. */
  function BuildHandler(request: HttpRequest): (r: Result<Handler, ProtocolError>)
    ensures r.Success? ==> r.value.request == request
    ensures r.Success? <==> GetVersion(request.headers) in {"76", "7", "8"}
    ensures r.Success? ==> (r.value.kind == Draft76 <==> GetVersion(request.headers) == "76")
    ensures r.Success? ==> (r.value.closeWired <==> r.value.kind == Hybi13)
    ensures r.Failure? ==> r.error == UnsupportedProtocol
  {
    var version := GetVersion(request.headers);
    if version == "76" then Success(Handler(Draft76, request, false))
    else if version == "7" || version == "8" then Success(Handler(Hybi13, request, true))
    else Failure(UnsupportedProtocol)
  }

  /** The Version header decides the version whatever other headers say. */
  lemma VersionHeaderDominates(headers: map<string, string>, name: string, value: string)
    requires VERSION_HEADER in headers && name != VERSION_HEADER
    ensures GetVersion(headers[name := value]) == GetVersion(headers)
  {
  }

  /** "76" comes out exactly when the header that decides holds "76", or when
      the decision falls to the Key1 header. */
  lemma Version76Exactly(headers: map<string, string>)
    ensures GetVersion(headers) == "76" <==>
      (VERSION_HEADER in headers && headers[VERSION_HEADER] == "76") ||
      (VERSION_HEADER !in headers && DRAFT_HEADER in headers && headers[DRAFT_HEADER] == "76") ||
      (VERSION_HEADER !in headers && DRAFT_HEADER !in headers && KEY1_HEADER in headers)
  {
  }

  /** Versions 13 and 75 have no handler; 7 and 8 get Hybi13, 76 gets Draft76. */
  lemma VersionTable(request: HttpRequest)
    ensures GetVersion(request.headers) == "13" ==> BuildHandler(request) == Failure(UnsupportedProtocol)
    ensures GetVersion(request.headers) == "75" ==> BuildHandler(request) == Failure(UnsupportedProtocol)
    ensures GetVersion(request.headers) in {"7", "8"} ==> BuildHandler(request) == Success(Handler(Hybi13, request, true))
    ensures GetVersion(request.headers) == "76" ==> BuildHandler(request) == Success(Handler(Draft76, request, false))
  {
  }

  /** A request with none of the three headers is refused. */
  lemma NoVersionHeadersRefused(request: HttpRequest)
    requires VERSION_HEADER !in request.headers && DRAFT_HEADER !in request.headers
    requires KEY1_HEADER !in request.headers
    ensures GetVersion(request.headers) == "75"
    ensures BuildHandler(request) == Failure(UnsupportedProtocol)
  {
  }
}
