/** `get_client_info`: who sent a request, read from its headers. */
module Client {
  import opened Results
  import opened Text

  /** The parts of a request the handlers look at: its headers, with names in
      lower case as the server stores them, and the peer's host if known. */
  datatype Request = Request(headers: map<string, string>, client: Option<string>)

  datatype ClientInfo = ClientInfo(ip: string, userAgent: string, referer: string)

  /** `request.headers.get(name)`. */
  function Header(req: Request, name: string): Option<string> {
    if name in req.headers then Some(req.headers[name]) else None
  }

  /** A header that is present and not empty (Python truthiness). */
  predicate HasValue(h: Option<string>) {
    h.Some? && h.value != []
  }

  function GetClientInfo(req: Request): (info: ClientInfo)
    // A non-empty X-Forwarded-For gives its first entry: everything before the first comma.
    ensures var fwd := Header(req, "x-forwarded-for");
      HasValue(fwd) ==>
        && StartsWith(fwd.value, info.ip)
        && ',' !in info.ip
        && (|info.ip| < |fwd.value| ==> fwd.value[|info.ip|] == ',')
    // Otherwise X-Real-IP, then the peer's host, then "unknown".
    ensures var fwd, realIp := Header(req, "x-forwarded-for"), Header(req, "x-real-ip");
      !HasValue(fwd) ==>
        info.ip == (if HasValue(realIp) then realIp.value
                    else if req.client.Some? then req.client.value
                    else "unknown")
    ensures info.userAgent == Header(req, "user-agent").GetOr("unknown")
    ensures info.referer == Header(req, "referer").GetOr("")
  {
    var forwarded := Header(req, "x-forwarded-for");
    var realIp := Header(req, "x-real-ip");
    var ip :=
      if HasValue(forwarded) then BeforeFirst(forwarded.value, ',')
      else if HasValue(realIp) then realIp.value
      else if req.client.Some? then req.client.value
      else "unknown";
    ClientInfo(ip, Header(req, "user-agent").GetOr("unknown"), Header(req, "referer").GetOr(""))
  }
}
