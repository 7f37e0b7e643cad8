/** parseEndpoint: "scheme://host:port/prefix" read into its parts. */
module Endpoints {
  import opened Wrappers
  import opened Text
  import opened Numerals

  datatype Endpoint = Endpoint(host: string, port: int, pathPrefix: string, tls: bool)

  /** What is left of the URL without its scheme, and whether the scheme is a secure one. */
  function StripScheme(url: string): (string, bool) {
    if At(url, "https://", 0) then (url[8..], true)
    else if At(url, "grpcs://", 0) then (url[8..], true)
    else if At(url, "http://", 0) then (url[7..], false)
    else if At(url, "grpc://", 0) then (url[7..], false)
    else (url, false)
  }

  function TrimSlashes(s: string): string {
    if s != "" && s[|s| - 1] == '/' then TrimSlashes(s[..|s| - 1]) else s
  }

  function ParseAuthority(authority: string, prefix: string, tls: bool, defaultPort: int): Result<Endpoint> {
    match Find(authority, ":", 0)
    case None => Ok(Endpoint(authority, defaultPort, prefix, tls))
    case Some(colon) =>
      match Stoi(authority[colon + 1..])
      case None => Err("stoi")
      case Some(port) => Ok(Endpoint(authority[..colon], port, prefix, tls))
  }

  function ParseEndpoint(url: string, defaultPort: int): Result<Endpoint> {
    var (value, tls) := StripScheme(url);
    match Find(value, "/", 0)
    case None => ParseAuthority(value, "", tls, defaultPort)
    case Some(slash) => ParseAuthority(value[..slash], TrimSlashes(value[slash..]), tls, defaultPort)
  }

  method Parse(url: string, defaultPort: int) returns (r: Result<Endpoint>)
    ensures r == ParseEndpoint(url, defaultPort)
  {
    var (value, tls) := StripScheme(url);
    var slash := Find(value, "/", 0);
    var authority, pathPrefix := value, "";
    if slash.Some? {
      authority := value[..slash.value];
      var prefix := value[slash.value..];
      while prefix != "" && prefix[|prefix| - 1] == '/'
        invariant TrimSlashes(value[slash.value..]) == TrimSlashes(prefix)
        decreases |prefix|
      {
        prefix := prefix[..|prefix| - 1];
      }
      pathPrefix := prefix;
    }
    var colon := Find(authority, ":", 0);
    if colon.None? {
      return Ok(Endpoint(authority, defaultPort, pathPrefix, tls));
    }
    var port := Stoi(authority[colon.value + 1..]);
    if port.None? {
      return Err("stoi");
    }
    r := Ok(Endpoint(authority[..colon.value], port.value, pathPrefix, tls));
  }

  // ---- printing, and reading back ----

  datatype Scheme = NoScheme | Http | Grpc | Https | Grpcs {
    function Text(): string {
      match this
      case NoScheme => ""
      case Http => "http://"
      case Grpc => "grpc://"
      case Https => "https://"
      case Grpcs => "grpcs://"
    }

    predicate Secure() {
      Https? || Grpcs?
    }
  }

  predicate Free(s: string, c: char) {
    forall i :: 0 <= i < |s| ==> s[i] != c
  }

  function PortText(port: Option<nat>): string {
    match port case None => "" case Some(n) => ":" + Decimal(n)
  }

  /** A path prefix as the client keeps it: empty, or starting and not ending with a slash. */
  predicate CleanPrefix(p: string) {
    p == "" || (p[0] == '/' && p[|p| - 1] != '/')
  }

  function Slashes(n: nat): (s: string)
    ensures |s| == n && forall i :: 0 <= i < n ==> s[i] == '/'
  {
    seq(n, _ => '/')
  }

  function Print(scheme: Scheme, host: string, port: Option<nat>, prefix: string, slashes: nat): string {
    scheme.Text() + (host + PortText(port) + (prefix + Slashes(slashes)))
  }

  lemma {:induction false} FindSkips(front: string, c: char, rest: string)
    requires Free(front, c)
    ensures rest != "" && rest[0] == c ==> Find(front + rest, [c], 0) == Some(|front|)
    ensures rest == "" ==> Find(front + rest, [c], 0) == None
  {
    hide Find;
    var s := front + rest;
    forall i | 0 <= i < |front|
      ensures !At(s, [c], i)
    {
      assert s[i] == front[i];
    }
    if rest != "" && rest[0] == c {
      assert At(s, [c], |front|);
    }
  }

  lemma {:induction false} TrimsAll(p: string, n: nat)
    requires CleanPrefix(p)
    ensures TrimSlashes(p + Slashes(n)) == p
    decreases n
  {
    var s := p + Slashes(n);
    if n > 0 {
      assert s[|s| - 1] == Slashes(n)[n - 1];
      assert s[..|s| - 1] == p + Slashes(n - 1);
      TrimsAll(p, n - 1);
    } else {
      assert s == p;
    }
  }

  lemma {:induction false} StripsPrinted(scheme: Scheme, value: string)
    requires scheme != NoScheme
    ensures StripScheme(scheme.Text() + value) == (value, scheme.Secure())
  {
    var url := scheme.Text() + value;
    match scheme {
      case Https =>
        AtLeft("https://", value, "https://", 0);
      case Grpcs =>
        AtLeft("grpcs://", value, "grpcs://", 0);
        NotAt(url, "https://", 0, 0);
      case Http =>
        AtLeft("http://", value, "http://", 0);
        NotAt(url, "https://", 0, 4);
        NotAt(url, "grpcs://", 0, 0);
      case Grpc =>
        AtLeft("grpc://", value, "grpc://", 0);
        NotAt(url, "https://", 0, 0);
        NotAt(url, "grpcs://", 0, 4);
        NotAt(url, "http://", 0, 0);
    }
  }

  lemma {:induction false} StripsNothing(url: string)
    requires !At(url, "https://", 0) && !At(url, "grpcs://", 0) && !At(url, "http://", 0) && !At(url, "grpc://", 0)
    ensures StripScheme(url) == (url, false)
  {
    hide At;
  }

  /** The scheme printed is the scheme stripped; text that starts with a host and a port has none. */
  lemma {:induction false} StripsScheme(scheme: Scheme, host: string, port: Option<nat>, rest: string)
    requires Free(host, ':') && Free(host, '/')
    requires rest == "" || rest[0] == '/'
    ensures StripScheme(scheme.Text() + (host + PortText(port) + rest)) ==
            (host + PortText(port) + rest, scheme.Secure())
  {
    var value := host + PortText(port) + rest;
    hide At, StripScheme, PortText;
    if scheme == NoScheme {
      assert scheme.Text() + value == value;
      NoSchemeInside(host, port, rest, "https://", 5);
      NoSchemeInside(host, port, rest, "grpcs://", 5);
      NoSchemeInside(host, port, rest, "http://", 4);
      NoSchemeInside(host, port, rest, "grpc://", 4);
      StripsNothing(value);
    } else {
      StripsPrinted(scheme, value);
    }
  }

  lemma {:induction false} NoSchemeInside(host: string, port: Option<nat>, rest: string, scheme: string, colon: nat)
    requires Free(host, ':') && Free(host, '/')
    requires rest == "" || rest[0] == '/'
    requires |scheme| == colon + 3 && scheme[colon] == ':' && scheme[colon + 1] == '/'
    requires forall i :: 0 <= i < colon ==> scheme[i] != ':' && scheme[i] != '/'
    ensures !At(host + PortText(port) + rest, scheme, 0)
  {
    var value := host + PortText(port) + rest;
    if port.Some? {
      assert IsDigit(Decimal(port.value)[0], 10);
      assert value[|host|] == ':' && value[|host| + 1] == Decimal(port.value)[0];
    } else {
      assert rest != "" ==> value[|host|] == '/';
    }
    assert |host| > colon ==> value[colon] == host[colon];
    if At(value, scheme, 0) {
      AtChar(value, scheme, 0, colon);
      AtChar(value, scheme, 0, colon + 1);
      if |host| < colon {
        AtChar(value, scheme, 0, |host|);
      }
    }
  }

  lemma {:induction false} ReadsAuthority(host: string, port: Option<nat>, prefix: string, tls: bool, defaultPort: int)
    requires Free(host, ':') && (port.Some? ==> port.value < INT_LIMIT)
    ensures ParseAuthority(host + PortText(port), prefix, tls, defaultPort) ==
            Ok(Endpoint(host, if port.Some? then port.value else defaultPort, prefix, tls))
  {
    hide Find, Stoi;
    FindSkips(host, ':', PortText(port));
    if port.Some? {
      var text := host + PortText(port);
      assert text[..|host|] == host;
      assert text[|host| + 1..] == Decimal(port.value);
      StoiDecimal(port.value, "");
      assert Decimal(port.value) + "" == Decimal(port.value);
    } else {
      assert host + "" == host;
    }
  }

  lemma {:induction false} PortTextFree(port: Option<nat>)
    ensures Free(PortText(port), '/')
  {
    if port.Some? {
      var ds := Decimal(port.value);
      forall i | 0 <= i < |ds|
        ensures ds[i] != '/'
      {
        assert IsDigit(ds[i], 10);
      }
    }
  }

  /** Printing any endpoint and reading it back recovers every part, whatever the number of
      trailing slashes; without a port the default one is used. */
  lemma {:induction false} EndpointRoundTrip(
      scheme: Scheme, host: string, port: Option<nat>, prefix: string, slashes: nat, defaultPort: int)
    requires Free(host, ':') && Free(host, '/') && CleanPrefix(prefix)
    requires port.Some? ==> port.value < INT_LIMIT
    ensures ParseEndpoint(Print(scheme, host, port, prefix, slashes), defaultPort) ==
            Ok(Endpoint(host, if port.Some? then port.value else defaultPort, prefix, scheme.Secure()))
  {
    hide Find, StripScheme, ParseAuthority, Decimal;
    var path := prefix + Slashes(slashes);
    StripsScheme(scheme, host, port, path);
    PortTextFree(port);
    var authority := host + PortText(port);
    FindSkips(authority, '/', path);
    assert ['/'] == "/";
    TrimsAll(prefix, slashes);
    ReadsAuthority(host, port, prefix, scheme.Secure(), defaultPort);
    assert (authority + path)[..|authority|] == authority;
    assert (authority + path)[|authority|..] == path;
    if path == "" {
      assert authority + path == authority;
    }
  }

  /** With something after a colon the parser succeeds exactly when stoi does, on what stands before the
      path: any other port is refused. */
  lemma {:induction false} PortDecides(scheme: Scheme, host: string, text: string, path: string, defaultPort: int)
    requires Free(host, ':') && Free(host, '/') && Free(text, '/')
    requires path == "" || path[0] == '/'
    requires scheme != NoScheme || text != ""
    ensures match Stoi(text)
            case None => ParseEndpoint(scheme.Text() + (host + ":" + text + path), defaultPort).Err?
            case Some(n) =>
              ParseEndpoint(scheme.Text() + (host + ":" + text + path), defaultPort) ==
              Ok(Endpoint(host, n, TrimSlashes(path), scheme.Secure()))
  {
    hide Find, StripScheme, Stoi, At;
    var authority := host + ":" + text;
    StripsWithText(scheme, host, text, path);
    FindSkips(authority, '/', path);
    FindSkips(host, ':', ":" + text);
    assert authority == host + (":" + text);
    assert authority[|host| + 1..] == text && authority[..|host|] == host;
    assert (authority + path)[..|authority|] == authority;
    assert (authority + path)[|authority|..] == path;
    if path == "" {
      assert authority + path == authority;
    }
  }

  lemma {:induction false} StripsWithText(scheme: Scheme, host: string, text: string, path: string)
    requires Free(host, ':') && Free(text, '/') && Free(host, '/')
    requires scheme != NoScheme || text != ""
    ensures StripScheme(scheme.Text() + (host + ":" + text + path)) == (host + ":" + text + path, scheme.Secure())
  {
    var value := host + ":" + text + path;
    hide At, StripScheme;
    if scheme == NoScheme {
      assert scheme.Text() + value == value;
      NoSchemeBefore(host, text, path, "https://", 5);
      NoSchemeBefore(host, text, path, "grpcs://", 5);
      NoSchemeBefore(host, text, path, "http://", 4);
      NoSchemeBefore(host, text, path, "grpc://", 4);
      StripsNothing(value);
    } else {
      StripsPrinted(scheme, value);
    }
  }

  lemma {:induction false} NoSchemeBefore(host: string, text: string, path: string, scheme: string, colon: nat)
    requires Free(host, ':') && text != "" && text[0] != '/'
    requires |scheme| == colon + 3 && scheme[colon] == ':' && scheme[colon + 1] == '/'
    requires forall i :: 0 <= i < colon ==> scheme[i] != ':'
    ensures !At(host + ":" + text + path, scheme, 0)
  {
    hide At;
    var value := host + ":" + text + path;
    assert value[|host|] == ':' && value[|host| + 1] == text[0];
    if |host| < colon {
      NotAt(value, scheme, 0, |host|);
    } else if |host| == colon {
      NotAt(value, scheme, 0, colon + 1);
    } else {
      assert value[colon] == host[colon];
      NotAt(value, scheme, 0, colon);
    }
  }

  /** Ports that are refused: no number at all, and numbers beyond an int. */
  lemma {:induction false} PortsRefused(text: string, digits: string)
    requires NoNumber(text, 10) && IsToken(digits, 10) && ValueOf(digits, 10) >= INT_LIMIT
    ensures Stoi(text) == None && Stoi(digits) == None
  {
    hide ValueOf, Scan, IsToken;
    ScansNothing("", text, 10);
    assert "" + text == text;
    ReadsSigned("", "", digits, "", INT_LIMIT);
    assert "" + ("" + (digits + "")) == digits;
  }
}
