/** The endpoint selection of `_xcb_open`: a non-empty host means TCP on the
    X port of the display, an empty host the display's Unix-domain socket.
    Name lookup, `socket` and `connect` are not modelled; the model stops at
    the address each opener is handed. */
module Transport {
  import opened Wrappers
  import opened CTypes
  import opened CString
  import opened Display

  /** `X_TCP_PORT`: the TCP port of display 0. */
  const XTcpPort: int := 6000

  /** The directory and file-name prefix of the local sockets. */
  const UnixBase: string := "/tmp/.X11-unix/X"

  /** `sizeof(file)`: `sizeof(base)` (the prefix and its NUL) plus 20. */
  const PathBufferSize: nat := |UnixBase| + 1 + 20

  /** The capacity of `sun_path` in `struct sockaddr_un` on Linux, which
      `_xcb_open_unix` fills with `strcpy`. */
  const SunPathSize: nat := 108

  /** The address handed to `_xcb_open_tcp` or `_xcb_open_unix`. */
  datatype Endpoint = Tcp(host: string, port: UShort) | Unix(path: string)

  /** The port `X_TCP_PORT + display`, stored in an `unsigned short`. */
  function TcpPort(display: Int32): (port: UShort)
    ensures (port - (XTcpPort + display)) % UShortModulus == 0
    ensures 0 <= XTcpPort + display < UShortModulus ==> port == XTcpPort + display
  {
    ToUShort(XTcpPort + display)
  }

  /** The text `snprintf(file, sizeof(file), "%s%d", base, display)` leaves
      in `file`. */
  function UnixPath(display: Int32): (path: string)
    ensures |path| < PathBufferSize
    ensures UnixBase <= path
  {
    Bounded(UnixBase + FormatInt(display), PathBufferSize)
  }

  /** `_xcb_open`'s choice between the two transports. */
  function OpenEndpoint(host: string, display: Int32): (e: Endpoint)
    ensures e.Tcp? <==> host != []
    ensures e.Tcp? ==> e.host == host
  {
    if host != [] then Tcp(host, TcpPort(display)) else Unix(UnixPath(display))
  }

  // ---------------------------------------------------------------------------
  // Properties

  /** The socket path is never truncated and always fits `sun_path` with its
      NUL, so on the way from `_xcb_open` the unchecked `strcpy` cannot
      overflow. */
  lemma UnixPathFits(display: Int32)
    ensures UnixPath(display) == UnixBase + FormatInt(display)
    ensures |UnixPath(display)| <= 27
    ensures |UnixPath(display)| + 1 <= SunPathSize
  {
    FormatIntLength(display);
  }

  /** The display number can be read back from the socket path: it is the
      prefix followed by the display number in decimal. */
  lemma UnixPathNamesDisplay(display: Int32)
    ensures UnixPath(display)[..|UnixBase|] == UnixBase
    ensures var digits := UnixPath(display)[|UnixBase|..];
      IsNumeral(digits) && ULongToInt(StrToUL(digits).value) == display
  {
    UnixPathFits(display);
    assert UnixPath(display)[|UnixBase|..] == FormatInt(display);
    FormatIntConversion(display);
  }

  /** Different displays have different sockets. */
  lemma UnixPathsDistinct(d1: Int32, d2: Int32)
    requires d1 != d2
    ensures UnixPath(d1) != UnixPath(d2)
  {
    UnixPathNamesDisplay(d1);
    UnixPathNamesDisplay(d2);
  }

  /** Displays 0 to 59535 get the ports 6000 to 65535, one each. */
  lemma TcpPortExact(display: Int32)
    requires 0 <= display <= UShortModulus - 1 - XTcpPort
    ensures TcpPort(display) == XTcpPort + display
  {
  }

  /** The port wraps around in `unsigned short`: displays 65536 apart share it. */
  lemma TcpPortWraps(display: Int32)
    requires display + UShortModulus <= IntMax
    ensures TcpPort(display + UShortModulus) == TcpPort(display)
  {
  }

  // ---------------------------------------------------------------------------
  // From a display name to an endpoint

  /** The endpoint a display name leads to, with the screen number.
      `allocates` says whether `XCBParseDisplay` gets the memory for its copy
      of the host; without it `XCBConnect` stops before any endpoint. */
  function Resolve(name: Option<string>, env: Option<string>, allocates: bool): (r: Result<(Endpoint, Int32), ParseFailure>)
    ensures r.Ok? <==> ParseDisplay(name, env).Ok? && allocates
    ensures ParseDisplay(name, env).Err? ==> r == Err(ParseDisplay(name, env).error)
    ensures ParseDisplay(name, env).Ok? && !allocates ==> r == Err(OutOfMemory)
    ensures r.Ok? ==> r.value.1 == ParseDisplay(name, env).value.screen
    ensures r.Ok? ==> (r.value.0.Unix? <==> ParseDisplay(name, env).value.host == [])
    ensures r.Ok? ==>
      var spec := ParseDisplay(name, env).value;
      r.value.0 == OpenEndpoint(spec.host, spec.display)
  {
    match ParseDisplay(name, env)
    case Err(e) => Err(e)
    case Ok(spec) =>
      if !allocates then Err(OutOfMemory)
      else Ok((OpenEndpoint(spec.host, spec.display), spec.screen))
  }

  /** "host:d.s" reaches the TCP port of display d on "host", for every
      non-empty host (colons included), every display and screen, and
      whatever DISPLAY holds. */
  lemma RemoteNameEndpoint(host: string, display: Int32, screen: Int32, env: Option<string>)
    requires host != []
    ensures Resolve(Some(host + ":" + FormatInt(display) + "." + FormatInt(screen)), env, true)
      == Ok((Tcp(host, TcpPort(display)), screen))
  {
    var name := host + ":" + FormatInt(display) + "." + FormatInt(screen);
    ParseFormatted(host, display, screen);
    NameOverridesEnvironment(name, env);
    ResolveParsed(Some(name), env, DisplaySpec(host, display, screen));
  }

  lemma ResolveParsed(name: Option<string>, env: Option<string>, spec: DisplaySpec)
    requires ParseDisplay(name, env) == Ok(spec)
    ensures Resolve(name, env, true) == Ok((OpenEndpoint(spec.host, spec.display), spec.screen))
  {
  }

  /** ":d" reaches the socket "/tmp/.X11-unix/X" followed by d. */
  lemma LocalNameEndpoint(name: string, display: Int32)
    requires name == ":" + FormatInt(display)
    ensures Resolve(Some(name), None, true) == Ok((Unix(UnixBase + FormatInt(display)), 0))
  {
    assert name == "" + ":" + FormatInt(display);
    ParseFormattedDisplay("", display);
    NameOverridesEnvironment(name, None);
    ResolveParsed(Some(name), None, DisplaySpec("", display, 0));
    UnixPathFits(display);
  }

  lemma EndpointExamples()
    ensures OpenEndpoint("", 7) == Unix("/tmp/.X11-unix/X7")
    ensures OpenEndpoint("example", 3) == Tcp("example", 6003)
  {
    assert FormatInt(7) == "7";
    UnixPathFits(7);
  }

  /** "unix:0" names the host "unix", since only the last ':' is looked at,
      and so leads to TCP port 6000 rather than the local socket. The name is
      a parameter, as in the display-name examples, so that the parser is
      not unfolded on the literal. */
  lemma UnixPrefixEndpoint(name: string)
    requires name == "unix:0"
    ensures Resolve(Some(name), None, true) == Ok((Tcp("unix", 6000), 0))
  {
    SmallFormats();
    assert name == "unix" + ":" + FormatInt(0);
    ParseFormattedDisplay("unix", 0);
    NameOverridesEnvironment(name, None);
    ResolveParsed(Some(name), None, DisplaySpec("unix", 0, 0));
  }
}
