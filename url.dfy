/** Construction of a `URL` from its text: the scheme, host, path and port
    that a browser needs to open a connection and send a request. */
module UrlParsing {
  import opened PyStr

  /** Why constructing a URL raises: no "://" to unpack around, a scheme
      other than http or https, or a port text that `int` rejects. */
  datatype UrlError = MissingSchemeSeparator | UnsupportedScheme | InvalidPort

  datatype Result<+T> = Ok(value: T) | Err(error: UrlError)

  /** The four fields of a constructed URL, as values. */
  datatype UrlParts = UrlParts(scheme: string, host: string, path: string, port: nat)

  /** The schemes the browser can fetch; neither holds a ":". */
  predicate SupportedScheme(scheme: string): (b: bool)
    ensures b ==> |scheme| >= 4 && ':' !in scheme && '/' !in scheme
  {
    scheme == "http" || scheme == "https"
  }

  /** The port used when the URL names none. */
  function DefaultPort(scheme: string): (port: nat)
    requires SupportedScheme(scheme)
    ensures scheme == "http" ==> port == 80
    ensures scheme == "https" ==> port == 443
  {
    if scheme == "http" then 80 else 443
  }

  /** The text before the first "/" of what follows "://": the host and an optional ":port". */
  function Authority(rest: string): (a: string)
    ensures '/' !in a
    ensures a <= rest
    ensures a == rest || rest[|a|] == '/'
  {
    SplitOnceChar(rest, '/');
    SplitOnce(rest, "/")[0]
  }

  /** The path of what follows "://": from its first "/" on, or "/" when it has none. */
  function PathOf(rest: string): (p: string)
    ensures |p| > 0 && p[0] == '/'
    ensures '/' !in rest ==> p == "/"
    ensures Authority(rest) + p == if '/' in rest then rest else rest + "/"
  {
    SplitOnceChar(rest, '/');
    var parts := SplitOnce(rest, "/");
    if |parts| == 1 then "/" else "/" + parts[1]
  }

  /** The specification of URL construction: the scheme is the text before the
      first "://"; the authority runs from there to the next "/", and the path
      from that "/" on; the authority's text after its first ":", if any, is
      the port and the text before it the host. */
  function ParseUrl(text: string): (r: Result<UrlParts>)
    ensures r.Ok? ==> WellFormed(r.value)
    ensures r.Ok? ==> r.value.scheme + "://" <= text
  {
    var parts := SplitOnce(text, "://");
    if |parts| == 1 then Err(MissingSchemeSeparator)
    else if !SupportedScheme(parts[0]) then Err(UnsupportedScheme)
    else ParseAuthority(parts[0], parts[1])
  }

  /** The rest of construction once the scheme is known to be supported. */
  function ParseAuthority(scheme: string, rest: string): (r: Result<UrlParts>)
    requires SupportedScheme(scheme)
    ensures r.Ok? ==> WellFormed(r.value) && r.value.scheme == scheme && r.value.path == PathOf(rest)
    ensures r.Err? ==> r.error == InvalidPort
  {
    var authority := Authority(rest);
    SplitOnceChar(authority, ':');
    var hostPort := SplitOnce(authority, ":");
    if |hostPort| == 1 then Ok(UrlParts(scheme, authority, PathOf(rest), DefaultPort(scheme)))
    else
      match ParseInt(hostPort[1])
      case None => Err(InvalidPort)
      case Some(port) => Ok(UrlParts(scheme, hostPort[0], PathOf(rest), port))
  }

  /** With no ":" in the authority, the host is the whole authority and the
      port is the scheme's default. */
  lemma DefaultPortCase(scheme: string, rest: string)
    requires SupportedScheme(scheme) && ':' !in Authority(rest)
    ensures ParseAuthority(scheme, rest) == Ok(UrlParts(scheme, Authority(rest), PathOf(rest), DefaultPort(scheme)))
  {
    SplitOnceChar(Authority(rest), ':');
  }

  /** With a ":" in the authority, the host is the text before it and the port
      the value of the text after it, if that text has one. */
  lemma PortCases(scheme: string, rest: string, hostPort: seq<string>)
    requires SupportedScheme(scheme) && hostPort == SplitOnce(Authority(rest), ":") && |hostPort| == 2
    ensures ParseInt(hostPort[1]).None? ==> ParseAuthority(scheme, rest) == Err(InvalidPort)
    ensures ParseInt(hostPort[1]).Some? ==>
      ParseAuthority(scheme, rest) == Ok(UrlParts(scheme, hostPort[0], PathOf(rest), ParseInt(hostPort[1]).value))
  {
  }

  /** Construction fails exactly in the three ways the source raises, checked in
      its order: no "://", then the scheme, then the port text. */
  lemma ParseErrors(text: string)
    ensures ParseUrl(text) == Err(MissingSchemeSeparator) <==> !Contains(text, "://")
    ensures ParseUrl(text) == Err(UnsupportedScheme) <==>
      Contains(text, "://") && !SupportedScheme(SplitOnce(text, "://")[0])
    ensures ParseUrl(text) == Err(InvalidPort) <==>
      && Contains(text, "://")
      && SupportedScheme(SplitOnce(text, "://")[0])
      && var hostPort := SplitOnce(Authority(SplitOnce(text, "://")[1]), ":");
      && |hostPort| == 2
      && !IsDecimal(hostPort[1])
  {
    if Contains(text, "://") {
      SplitOnceChar(Authority(SplitOnce(text, "://")[1]), ':');
    }
  }

  /** The path always starts with "/"; it is the text from the first "/" after
      "://" on, or exactly "/" when there is no such "/". */
  lemma ParsedPath(text: string)
    requires ParseUrl(text).Ok?
    ensures |SplitOnce(text, "://")| == 2
    ensures var u, rest := ParseUrl(text).value, SplitOnce(text, "://")[1];
      && |u.path| > 0 && u.path[0] == '/'
      && ('/' !in rest ==> u.path == "/")
      && ('/' in rest ==> rest == Authority(rest) + u.path)
  {
  }

  /** The host holds neither "/" nor ":"; it is the authority cut at its first ":". */
  lemma ParsedHost(text: string)
    requires ParseUrl(text).Ok?
    ensures |SplitOnce(text, "://")| == 2
    ensures var u, authority := ParseUrl(text).value, Authority(SplitOnce(text, "://")[1]);
      && '/' !in u.host && ':' !in u.host
      && (':' !in authority ==> u.host == authority)
      && (|SplitOnce(authority, ":")| == 2 ==> u.host == SplitOnce(authority, ":")[0])
  {
    SplitOnceChar(Authority(SplitOnce(text, "://")[1]), ':');
  }

  /** Without ":" in the authority the port is the scheme's default, 80 or 443;
      with one, it is the value of the digits after the first ":". */
  lemma ParsedPort(text: string)
    requires ParseUrl(text).Ok?
    ensures |SplitOnce(text, "://")| == 2
    ensures var u, authority := ParseUrl(text).value, Authority(SplitOnce(text, "://")[1]);
      && (':' !in authority && u.scheme == "http" ==> u.port == 80)
      && (':' !in authority && u.scheme == "https" ==> u.port == 443)
      && (|SplitOnce(authority, ":")| == 2 ==> ParseInt(SplitOnce(authority, ":")[1]) == Some(u.port))
  {
    SplitOnceChar(Authority(SplitOnce(text, "://")[1]), ':');
  }

  /** Reassembling the scheme, "://", the authority as written and the path
      gives back the input, with a "/" appended exactly when the input had no
      "/" after "://"; the authority is the host, or the host, ":" and a port
      text whose value is the port. */
  lemma {:induction false} ParseRoundTrip(text: string)
    requires ParseUrl(text).Ok?
    ensures |SplitOnce(text, "://")| == 2
    ensures var u, rest := ParseUrl(text).value, SplitOnce(text, "://")[1];
      && u.scheme + "://" + Authority(rest) + u.path == (if '/' in rest then text else text + "/")
      && (|| Authority(rest) == u.host
          || (&& Authority(rest) == u.host + ":" + SplitOnce(Authority(rest), ":")[1]
              && ParseInt(SplitOnce(Authority(rest), ":")[1]) == Some(u.port)))
  {
    var u, rest := ParseUrl(text).value, SplitOnce(text, "://")[1];
    var authority := Authority(rest);
    SplitOnceChar(authority, ':');
    assert text == u.scheme + "://" + rest;
    ConcatAssoc(u.scheme + "://", authority, u.path);
    ConcatAssoc(u.scheme + "://", rest, "/");
  }

  /** A URL the constructor can produce. */
  predicate WellFormed(u: UrlParts)
  {
    && SupportedScheme(u.scheme)
    && '/' !in u.host && ':' !in u.host
    && |u.path| > 0 && u.path[0] == '/'
  }

  /** The canonical text of a URL: the port is written only when it is not the default. */
  function Format(u: UrlParts): string
    requires WellFormed(u)
  {
    u.scheme + "://" + u.host + PortText(u) + u.path
  }

  /** Every well-formed URL is what the constructor makes of its canonical text. */
  lemma {:induction false} FormatRoundTrip(u: UrlParts)
    requires WellFormed(u)
    ensures ParseUrl(Format(u)) == Ok(u)
  {
    var portText := PortText(u);
    var authority := u.host + portText;
    FormatShape(u);
    SchemeSplit(u.scheme, authority + u.path);
    assert ParseUrl(Format(u)) == ParseAuthority(u.scheme, authority + u.path);
    AuthoritySplit(authority, u.path);
    if u.port == DefaultPort(u.scheme) {
      assert authority == u.host;
      SplitOnceChar(authority, ':');
      assert |SplitOnce(authority, ":")| == 1;
    } else {
      HostPortSplit(u.host, DecimalString(u.port));
      assert SplitOnce(authority, ":") == [u.host, DecimalString(u.port)];
      DecimalRoundTrip(u.port);
    }
  }

  /** The ":port" part of the canonical text. */
  function PortText(u: UrlParts): string
    requires SupportedScheme(u.scheme)
  {
    if u.port == DefaultPort(u.scheme) then "" else ":" + DecimalString(u.port)
  }

  lemma FormatShape(u: UrlParts)
    requires WellFormed(u)
    ensures Format(u) == u.scheme + "://" + ((u.host + PortText(u)) + u.path)
    ensures PortText(u) != "" ==> u.host + PortText(u) == u.host + ":" + DecimalString(u.port)
  {
    var portText := PortText(u);
    ConcatAssoc(u.scheme + "://" + u.host, portText, u.path);
    ConcatAssoc(u.scheme + "://", u.host, portText + u.path);
    ConcatAssoc(u.host, portText, u.path);
    if portText != "" {
      ConcatAssoc(u.host, ":", DecimalString(u.port));
    }
  }

  /** A supported scheme holds no ':', so the first "://" is the one after it. */
  lemma SchemeSplit(scheme: string, rest: string)
    requires SupportedScheme(scheme)
    ensures SplitOnce(scheme + "://" + rest, "://") == [scheme, rest]
  {
    var text := scheme + "://" + rest;
    assert text[..|scheme|] == scheme && text[|scheme|..|scheme| + 3] == "://";
    forall j: nat | j < |scheme| ensures !OccursAt(text, "://", j) {
      assert text[j] == scheme[j] != ':';
      if j + 3 <= |text| {
        assert text[j..j + 3][0] == text[j];
      }
    }
    SplitOnceAt(text, "://", |scheme|);
    assert text[|scheme| + 3..] == rest;
  }

  /** The first "/" after an authority without one starts the path. */
  lemma AuthoritySplit(authority: string, path: string)
    requires '/' !in authority && |path| > 0 && path[0] == '/'
    ensures Authority(authority + path) == authority
    ensures PathOf(authority + path) == path
  {
    var rest := authority + path;
    assert rest[..|authority|] == authority;
    SplitOnceCharAt(rest, '/', |authority|);
    assert rest[|authority| + 1..] == path[1..];
    assert "/" + path[1..] == path;
  }

  /** The first ":" of a host without one is the port separator. */
  lemma HostPortSplit(host: string, port: string)
    requires ':' !in host
    ensures SplitOnce(host + ":" + port, ":") == [host, port]
  {
    var authority := host + ":" + port;
    assert authority[..|host|] == host;
    SplitOnceCharAt(authority, ':', |host|);
    assert authority[|host| + 1..] == port;
  }

  /** What splitting at "/" yields once a missing "/" has been appended:
      the authority and the path without its leading "/". */
  lemma HostPathSplit(rest: string)
    ensures var url := if '/' in rest then rest else rest + "/";
      SplitOnce(url, "/") == [Authority(rest), PathOf(rest)[1..]]
    ensures "/" + PathOf(rest)[1..] == PathOf(rest)
  {
    SplitOnceChar(rest, '/');
    if '/' !in rest {
      var url := rest + "/";
      AuthoritySplit(rest, "/");
      SplitOnceChar(url, '/');
      ConcatAssoc(SplitOnce(url, "/")[0], "/", SplitOnce(url, "/")[1]);
    }
  }

  /** A URL object whose fields the constructor fills in step by step. */
  class Url {
    var scheme: string
    var host: string
    var path: string
    var port: nat

    /** The fields as one value. */
    function Parts(): UrlParts
      reads this
    {
      UrlParts(scheme, host, path, port)
    }

    /** A freshly allocated object, before any field is assigned. */
    constructor ()
      ensures scheme == "" && host == "" && path == "" && port == 0
    {
      scheme, host, path, port := "", "", "", 0;
    }

    /** `URL(text)`: allocate the object, then split off the scheme, check it,
        add a missing "/", split host from path, set the default port and
        replace host and port when the host names one. A raised exception is
        an `Err` and no object is handed back. */
    static method New(text: string) returns (r: Result<Url>)
      ensures r.Err? ==> ParseUrl(text) == Err(r.error)
      ensures r.Ok? ==> fresh(r.value) && ParseUrl(text) == Ok(r.value.Parts())
    {
      var self := new Url();
      var url := text;
      var parts := SplitOnce(url, "://");
      if |parts| != 2 {
        return Err(MissingSchemeSeparator);
      }
      self.scheme, url := parts[0], parts[1];
      if !SupportedScheme(self.scheme) {
        return Err(UnsupportedScheme);
      }
      ghost var scheme, rest := self.scheme, url;
      ghost var expected := ParseAuthority(scheme, rest);
      assert ParseUrl(text) == expected;

      assert Contains(url, "/") <==> '/' in rest by {
        SplitOnceChar(rest, '/');
      }
      if !Contains(url, "/") {
        url := url + "/";
      }
      assert SplitOnce(url, "/") == [Authority(rest), PathOf(rest)[1..]] by {
        HostPathSplit(rest);
      }
      parts := SplitOnce(url, "/");
      self.host, url := parts[0], parts[1];
      self.path := "/" + url;
      assert self.path == PathOf(rest) by {
        HostPathSplit(rest);
      }

      ghost var authority, path := self.host, self.path;
      if self.scheme == "http" {
        self.port := 80;
      } else if self.scheme == "https" {
        self.port := 443;
      }
      assert self.host == authority && self.port == DefaultPort(scheme);

      assert Contains(authority, ":") <==> |SplitOnce(authority, ":")| == 2 by {
        SplitOnceChar(authority, ':');
      }
      if Contains(self.host, ":") {
        var hostPort := SplitOnce(self.host, ":");
        self.host := hostPort[0];
        var port := ParseInt(hostPort[1]);
        PortCases(scheme, rest, hostPort);
        if port.None? {
          return Err(InvalidPort);
        }
        self.port := port.value;
      } else {
        assert ':' !in authority by {
          SplitOnceChar(authority, ':');
        }
        DefaultPortCase(scheme, rest);
      }
      assert expected == Ok(self.Parts());
      return Ok(self);
    }
  }
}
