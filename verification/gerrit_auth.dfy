/** The three Gerrit authentication builders: each turns the configuration
    (and, for the cookie method, the server's base URL and the cookie file)
    into the argument vector of the curl command that talks to the server, or
    rejects the configuration. */
module GerritAuth {
  import opened Text

  datatype Option<T> = None | Some(value: T)

  datatype Result<T, E> = Success(value: T) | Failure(error: E)

  /** The two ways a configuration is rejected (a ValueError in Python). */
  datatype AuthError =
    | MissingCredential   // http_basic without a user name or without a secret
    | MissingCookiePath   // gitcookies without `gitcookies_path`

  /** The configuration mapping; its values are strings here. */
  type Config = map<string, string>

  /** `config.get(key)`. */
  function Get(config: Config, key: string): (v: Option<string>)
    ensures v.Some? <==> key in config
    ensures v.Some? ==> v.value == config[key]
  {
    if key in config then Some(config[key]) else None
  }

  /** Python truthiness of an optional string: present and not empty. */
  predicate Truthy(v: Option<string>)
    ensures Truthy(v) <==> v != None && v != Some("")
  {
    v.Some? && v.value != ""
  }

  /** Python's `a or b` on optional strings: `a` when it is truthy, else `b`. */
  function Or(a: Option<string>, b: Option<string>): (r: Option<string>)
    ensures Truthy(r) <==> Truthy(a) || Truthy(b)
    ensures Truthy(r) ==> r == (if Truthy(a) then a else b)
  {
    if Truthy(a) then a else b
  }

  /** The configuration has a non-empty value under `key`. */
  predicate Configured(config: Config, key: string)
  {
    key in config && config[key] != ""
  }

  /** The value of the first of two keys that is configured. */
  function Preferred(config: Config, primary: string, fallback: string): string
    requires Configured(config, primary) || Configured(config, fallback)
  {
    if Configured(config, primary) then config[primary] else config[fallback]
  }

  // ---------------------------------------------------------------------
  // gob

  /** The gob method: the ambient credential helper, whatever the configuration. */
  function GobAuth(config: Config): (argv: seq<string>)
    ensures argv == ["gob-curl", "-s"]
  {
    ["gob-curl", "-s"]
  }

  // ---------------------------------------------------------------------
  // http_basic

  /** The http_basic method: the user name is `username`, or `user` when
      `username` is unset or empty; the secret is `auth_token`, or `password`
      likewise. Both must end up non-empty. */
  function HttpBasicAuth(config: Config): (r: Result<seq<string>, AuthError>)
    ensures r.Success? <==>
              && (Configured(config, "username") || Configured(config, "user"))
              && (Configured(config, "auth_token") || Configured(config, "password"))
    ensures r.Failure? ==> r.error == MissingCredential
    ensures r.Success? ==>
              r.value == ["curl", "--user",
                          Preferred(config, "username", "user") + ":" +
                          Preferred(config, "auth_token", "password"),
                          "-L"]
  {
    var username := Or(Get(config, "username"), Get(config, "user"));
    var authToken := Or(Get(config, "auth_token"), Get(config, "password"));
    if !Truthy(username) || !Truthy(authToken) then
      Failure(MissingCredential)
    else
      Success(["curl", "--user", username.value + ":" + authToken.value, "-L"])
  }

  /** How curl reads a `--user` argument: the user name is the text before the
      first colon. */
  function CurlUserName(credential: string): string
  {
    Split(credential, ':')[0]
  }

  /** How curl reads a `--user` argument: the password is everything after the
      first colon. */
  function CurlPassword(credential: string): string
  {
    Join(Split(credential, ':')[1..], ':')
  }

  /** The `--user` argument hands curl back the configured user name and
      secret, provided the user name has no colon of its own. */
  lemma BasicCredentialRoundTrip(config: Config)
    requires HttpBasicAuth(config).Success?
    requires ':' !in Preferred(config, "username", "user")
    ensures var credential := HttpBasicAuth(config).value[2];
            && CurlUserName(credential) == Preferred(config, "username", "user")
            && CurlPassword(credential) == Preferred(config, "auth_token", "password")
  {
    var user := Preferred(config, "username", "user");
    var secret := Preferred(config, "auth_token", "password");
    SplitAfterPiece(user, secret, ':');
    assert user + ":" + secret == user + [':'] + secret;
    JoinOfSplit(secret, ':');
  }

  // ---------------------------------------------------------------------
  // gitcookies: the target domain

  /** Every `https://` and then every `http://` removed from the base URL. */
  function StripSchemes(baseUrl: string): (r: string)
    ensures |r| <= |baseUrl|
    ensures !Contains(baseUrl, "https://") && !Contains(baseUrl, "http://") ==> r == baseUrl
  {
    if !Contains(baseUrl, "https://") && !Contains(baseUrl, "http://") then
      RemoveAllWithoutOccurrence(baseUrl, "https://");
      RemoveAllWithoutOccurrence(baseUrl, "http://");
      RemoveAll(RemoveAll(baseUrl, "https://"), "http://")
    else
      RemoveAll(RemoveAll(baseUrl, "https://"), "http://")
  }

  /** The domain the cookie lines are matched against: the base URL without
      its schemes, cut before the first `/`. */
  function DeriveDomain(baseUrl: string): (domain: string)
    ensures '/' !in domain
    ensures StartsWith(StripSchemes(baseUrl), domain)
    ensures domain == StripSchemes(baseUrl) || StripSchemes(baseUrl)[|domain|] == '/'
  {
    Split(StripSchemes(baseUrl), '/')[0]
  }

  /** A host as it appears in a URL: no `/`, and not ending in the `:` of a
      port separator. */
  predicate HostName(host: string)
  {
    '/' !in host && (host == [] || host[|host| - 1] != ':')
  }

  /** No scheme prefix starts inside a host that is followed by nothing or by
      a path. */
  lemma NoSchemeInHost(host: string, path: string, scheme: string, i: nat)
    requires scheme == "https://" || scheme == "http://"
    requires HostName(host)
    requires path == [] || path[0] == '/'
    requires i < |host|
    ensures !OccursAt(host + path, scheme, i)
  {
    var s := host + path;
    var n := |scheme|;
    if i + n <= |s| {
      // a character of the candidate occurrence that differs from the scheme
      if i + n - 2 < |host| {
        assert s[i..i + n][n - 2] != scheme[n - 2];
      } else if |host| - i < n - 2 {
        var j := |host| - i;
        assert scheme[j] != '/' by {
          if scheme == "https://" {
            assert j in {1, 2, 3, 4, 5};
          } else {
            assert j in {1, 2, 3, 4};
          }
        }
        assert s[i..i + n][j] != scheme[j];
      } else {
        assert s[i..i + n][n - 3] == host[|host| - 1] != scheme[n - 3];
      }
    }
  }

  /** Removing a scheme from a host followed by a path leaves the host alone. */
  lemma RemoveSchemeAfterHost(host: string, path: string, scheme: string)
    requires scheme == "https://" || scheme == "http://"
    requires HostName(host)
    requires path == [] || path[0] == '/'
    ensures RemoveAll(host + path, scheme) == host + RemoveAll(path, scheme)
  {
    var s := host + path;
    forall i | 0 <= i < |host| ensures !OccursAt(s, scheme, i) {
      NoSchemeInHost(host, path, scheme, i);
    }
    RemoveAllKeepsPrefix(s, scheme, |host|);
    assert s[..|host|] == host && s[|host|..] == path;
  }

  /** An occurrence after a prefix `p` is an occurrence in what follows `p`. */
  lemma OccursAfter(p: string, s: string, pat: string, i: nat)
    ensures OccursAt(p + s, pat, |p| + i) <==> OccursAt(s, pat, i)
  {
    if i + |pat| <= |s| {
      assert (p + s)[|p| + i..|p| + i + |pat|] == s[i..i + |pat|];
    }
  }

  /** `https://` does not start inside a leading `http://` followed by a host. */
  lemma HttpsNotInHttpUrl(host: string, path: string)
    requires HostName(host)
    requires path == [] || path[0] == '/'
    ensures RemoveAll("http://" + host + path, "https://")
            == "http://" + host + RemoveAll(path, "https://")
  {
    var s := "http://" + (host + path);
    assert s == "http://" + host + path;
    forall i | 0 <= i < 7 + |host| ensures !OccursAt(s, "https://", i) {
      if i < 7 {
        if i + 8 <= |s| {
          if i == 0 {
            assert s[i..i + 8][4] == ':';
          } else {
            assert s[i] != 'h' by { assert i in {1, 2, 3, 4, 5, 6}; }
            assert s[i..i + 8][0] != 'h';
          }
        }
      } else {
        OccursAfter("http://", host + path, "https://", i - 7);
        NoSchemeInHost(host, path, "https://", i - 7);
      }
    }
    RemoveAllKeepsPrefix(s, "https://", 7 + |host|);
    assert s[..7 + |host|] == "http://" + host;
    assert s[7 + |host|..] == path;
  }

  /** A removal never touches a leading `/`, since neither scheme starts with one. */
  lemma PathStaysPath(path: string, scheme: string)
    requires scheme == "https://" || scheme == "http://"
    requires path == [] || path[0] == '/'
    ensures var r := RemoveAll(path, scheme); r == [] || r[0] == '/'
  {
  }

  /** What removing `https://` leaves of a URL: an `http://` scheme stays. */
  lemma RemoveHttpsFromUrl(scheme: string, host: string, path: string)
    requires scheme == "https://" || scheme == "http://" || scheme == ""
    requires HostName(host)
    requires path == [] || path[0] == '/'
    ensures RemoveAll(scheme + host + path, "https://")
            == (if scheme == "http://" then scheme else "") + host + RemoveAll(path, "https://")
  {
    if scheme == "https://" {
      assert scheme + host + path == "https://" + (host + path);
      RemoveAllLeading("https://", host + path);
      RemoveSchemeAfterHost(host, path, "https://");
    } else if scheme == "http://" {
      HttpsNotInHttpUrl(host, path);
    } else {
      assert scheme + host + path == host + path;
      RemoveSchemeAfterHost(host, path, "https://");
    }
  }

  /** What removing `http://` then leaves: the host and the path. */
  lemma RemoveHttpFromUrl(scheme: string, host: string, path: string)
    requires scheme == "http://" || scheme == ""
    requires HostName(host)
    requires path == [] || path[0] == '/'
    ensures RemoveAll(scheme + host + path, "http://") == host + RemoveAll(path, "http://")
  {
    if scheme == "http://" {
      assert scheme + host + path == "http://" + (host + path);
      RemoveAllLeading("http://", host + path);
    } else {
      assert scheme + host + path == host + path;
    }
    RemoveSchemeAfterHost(host, path, "http://");
  }

  /** The domain of a URL built from a scheme, a host and a path is the host:
      the host-from-URL half of the cookie round trip. */
  lemma DomainOfUrl(scheme: string, host: string, path: string)
    requires scheme == "https://" || scheme == "http://" || scheme == ""
    requires HostName(host)
    requires path == [] || path[0] == '/'
    ensures DeriveDomain(scheme + host + path) == host
  {
    var path1 := RemoveAll(path, "https://");
    PathStaysPath(path, "https://");
    var path2 := RemoveAll(path1, "http://");
    PathStaysPath(path1, "http://");
    var kept := if scheme == "http://" then scheme else "";
    RemoveHttpsFromUrl(scheme, host, path);
    RemoveHttpFromUrl(kept, host, path1);
    assert StripSchemes(scheme + host + path) == host + path2;
    HostIsFirstSegment(host, path2);
  }

  /** The text before the first `/` of a host followed by a path is the host. */
  lemma HostIsFirstSegment(host: string, path: string)
    requires '/' !in host
    requires path == [] || path[0] == '/'
    ensures Split(host + path, '/')[0] == host
  {
    if path == [] {
      assert host + path == host;
      SplitWithoutSeparator(host, '/');
    } else {
      assert host + path == host + ['/'] + path[1..];
      SplitAfterPiece(host, path[1..], '/');
    }
  }

  // ---------------------------------------------------------------------
  // gitcookies: the cookie file

  /** One line of a Netscape cookie file, field by field. */
  datatype CookieEntry = CookieEntry(
    domain: string, includeSubdomains: string, path: string, secure: string,
    expiry: string, name: string, value: string)
  {
    /** The seven fields in file order. */
    function Fields(): seq<string>
    {
      [domain, includeSubdomains, path, secure, expiry, name, value]
    }

    /** No field holds the tab that separates them. */
    predicate TabFree()
    {
      forall i :: 0 <= i < 7 ==> '\t' !in Fields()[i]
    }

    /** The line as written to the file (without its line end). */
    function Line(): string
    {
      Join(Fields(), '\t')
    }
  }

  /** The credential one raw line of the cookie file yields for `domain`:
      the line must contain `domain` anywhere, and once stripped must split on
      tabs into exactly seven fields. */
  function LineCookie(domain: string, line: string): (cookie: Option<string>)
    ensures !Contains(line, domain) ==> cookie.None?
    ensures cookie.Some? ==>
              exists e: CookieEntry :: e.TabFree() && e.Line() == Strip(line)
                                       && cookie.value == e.name + "=" + e.value
  {
    if Contains(line, domain) then
      var parts := Split(Strip(line), '\t');
      if |parts| == 7 then
        var e := CookieEntry(parts[0], parts[1], parts[2], parts[3], parts[4], parts[5], parts[6]);
        assert e.Fields() == parts;
        JoinOfSplit(Strip(line), '\t');
        Some(parts[5] + "=" + parts[6])
      else None
    else None
  }

  /** Conversely, a line that contains `domain` and strips to a well-formed
      entry yields that entry's `name=value`. */
  lemma LineCookieOfEntry(domain: string, line: string, e: CookieEntry)
    requires e.TabFree()
    requires Contains(line, domain)
    requires Strip(line) == e.Line()
    ensures LineCookie(domain, line) == Some(e.name + "=" + e.value)
  {
    SplitOfJoin(e.Fields(), '\t');
  }

  /** Tab-joined fields whose last one is empty end in a tab, which `strip()`
      removes together with the line end: splitting the stripped line gives
      the fields before the empty one. */
  lemma StripDropsEmptyLastField(fields: seq<string>, eol: string)
    requires |fields| >= 1 && forall i :: 0 <= i < |fields| ==> '\t' !in fields[i]
    requires |fields[0]| > 0 && !IsSpace(fields[0][0])
    requires var last := fields[|fields| - 1]; |last| > 0 && !IsSpace(last[|last| - 1])
    requires AllSpace(eol)
    ensures Split(Strip(Join(fields + [""], '\t') + eol), '\t') == fields
  {
    JoinSnoc(fields, "", '\t');
    var core := Join(fields, '\t');
    var tail := "\t" + eol;
    assert Join(fields + [""], '\t') + eol == "" + core + tail;
    JoinEndsWith(fields, '\t');
    JoinStartsWith(fields, '\t');
    assert core[0] == fields[0][0];
    assert AllSpace(tail) by {
      forall i | 0 <= i < |tail| ensures IsSpace(tail[i]) {
        if i > 0 {
          assert tail[i] == eol[i - 1];
        }
      }
    }
    StripSurrounded("", core, tail);
    SplitOfJoin(fields, '\t');
  }

  /** The line of an entry with an empty value, stripped and split, gives the
      six fields before the value. */
  lemma EmptyValueSplitsInSix(e: CookieEntry, eol: string)
    requires e.TabFree() && e.value == ""
    requires |e.domain| > 0 && !IsSpace(e.domain[0])
    requires |e.name| > 0 && !IsSpace(e.name[|e.name| - 1])
    requires AllSpace(eol)
    ensures Split(Strip(e.Line() + eol), '\t') == e.Fields()[..6]
  {
    var six := e.Fields()[..6];
    assert e.Fields() == six + [""];
    forall i | 0 <= i < |six| ensures '\t' !in six[i] {
      assert six[i] == e.Fields()[i];
    }
    StripDropsEmptyLastField(six, eol);
  }

  /** So an entry with an empty value is never used, whatever the domain. */
  lemma EmptyValueIgnored(domain: string, e: CookieEntry, eol: string)
    requires e.TabFree() && e.value == ""
    requires |e.domain| > 0 && !IsSpace(e.domain[0])
    requires |e.name| > 0 && !IsSpace(e.name[|e.name| - 1])
    requires AllSpace(eol)
    ensures LineCookie(domain, e.Line() + eol).None?
  {
    EmptyValueSplitsInSix(e, eol);
  }

  /** What the last line, in order, for which `f` yields something yields. */
  function LastMatch<T>(f: string -> Option<T>, lines: seq<string>): Option<T>
  {
    if |lines| == 0 then None
    else if f(lines[|lines| - 1]).Some? then f(lines[|lines| - 1])
    else LastMatch(f, lines[..|lines| - 1])
  }

  /** Nothing is found exactly when no line yields anything. */
  lemma {:induction false} NoMatchIffNoLine<T>(f: string -> Option<T>, lines: seq<string>)
    ensures LastMatch(f, lines).None? <==> forall i :: 0 <= i < |lines| ==> f(lines[i]).None?
    decreases |lines|
  {
    if |lines| > 0 {
      var n := |lines| - 1;
      NoMatchIffNoLine(f, lines[..n]);
      assert forall i :: 0 <= i < n ==> lines[..n][i] == lines[i];
    }
  }

  /** No line after index `i` yields anything. */
  predicate NoMatchAfter<T>(f: string -> Option<T>, lines: seq<string>, i: nat)
  {
    forall j :: i < j < |lines| ==> f(lines[j]).None?
  }

  /** Last match wins: what is found is what some line yields, and no later
      line yields anything. */
  lemma {:induction false} LastMatchWins<T>(f: string -> Option<T>, lines: seq<string>)
    requires LastMatch(f, lines).Some?
    ensures exists i :: 0 <= i < |lines| && f(lines[i]) == LastMatch(f, lines)
                        && NoMatchAfter(f, lines, i)
    decreases |lines|
  {
    var n := |lines| - 1;
    if f(lines[n]).None? {
      var init := lines[..n];
      LastMatchWins(f, init);
      var i :| 0 <= i < n && f(init[i]) == LastMatch(f, init) && NoMatchAfter(f, init, i);
      assert init[i] == lines[i];
      assert NoMatchAfter(f, lines, i) by {
        forall j | i < j < |lines| ensures f(lines[j]).None? {
          if j < n {
            assert init[j] == lines[j];
          }
        }
      }
    } else {
      assert NoMatchAfter(f, lines, n);
    }
  }

  /** Scanning `a` then `b`: a match in `b` wins over any match in `a`. */
  lemma {:induction false} LastMatchAppend<T>(f: string -> Option<T>, a: seq<string>, b: seq<string>)
    ensures LastMatch(f, a + b) ==
              if LastMatch(f, b).Some? then LastMatch(f, b) else LastMatch(f, a)
    decreases |b|
  {
    if |b| == 0 {
      assert a + b == a;
    } else {
      var n := |b| - 1;
      assert (a + b)[|a + b| - 1] == b[n];
      assert (a + b)[..|a + b| - 1] == a + b[..n];
      LastMatchAppend(f, a, b[..n]);
    }
  }

  /** A line that yields nothing never changes the result, wherever it stands. */
  lemma IgnoredLine<T>(f: string -> Option<T>, a: seq<string>, line: string, b: seq<string>)
    requires f(line).None?
    ensures LastMatch(f, a + [line] + b) == LastMatch(f, a + b)
  {
    LastMatchAppend(f, a + [line], b);
    LastMatchAppend(f, a, b);
    LastMatchAppend(f, a, [line]);
    assert [line][..0] == [];
  }

  /** The credential of the last line of the cookie file, in file order, that
      yields one for `domain`. */
  function LastCookie(domain: string, lines: seq<string>): Option<string>
  {
    LastMatch(line => LineCookie(domain, line), lines)
  }

  /** One more line: it replaces the credential if it yields one. */
  lemma LastCookieStep(domain: string, lines: seq<string>, i: nat)
    requires i < |lines|
    ensures LastCookie(domain, lines[..i + 1]) ==
              if LineCookie(domain, lines[i]).Some? then LineCookie(domain, lines[i])
              else LastCookie(domain, lines[..i])
  {
    assert lines[..i + 1][..i] == lines[..i];
    assert lines[..i + 1][i] == lines[i];
  }

  /** A found credential is never empty, so the truthiness test after the
      scan only tells found from not found. */
  lemma LastCookieNonEmpty(domain: string, lines: seq<string>)
    ensures LastCookie(domain, lines).Some? ==> LastCookie(domain, lines).value != ""
  {
    if LastCookie(domain, lines).Some? {
      LastMatchWins(line => LineCookie(domain, line), lines);
    }
  }

  /** Last match wins, for the cookie file: no credential exactly when no line
      yields one; otherwise the credential of a line after which none does. */
  lemma CookieLastMatchWins(domain: string, lines: seq<string>)
    ensures LastCookie(domain, lines).None? <==>
              forall i :: 0 <= i < |lines| ==> LineCookie(domain, lines[i]).None?
    ensures LastCookie(domain, lines).Some? ==>
              exists i :: 0 <= i < |lines| && LineCookie(domain, lines[i]) == LastCookie(domain, lines)
                          && forall j :: i < j < |lines| ==> LineCookie(domain, lines[j]).None?
  {
    var f := line => LineCookie(domain, line);
    NoMatchIffNoLine(f, lines);
    if LastCookie(domain, lines).Some? {
      LastMatchWins(f, lines);
    }
  }

  /** The gitcookies method. `cookieFile` is the cookie file at the configured
      path, as raw lines, or None when no file exists there. A missing or empty
      `gitcookies_path` is the only error; every other miss falls back to an
      unauthenticated request. */
  method GitCookiesAuth(baseUrl: string, config: Config, cookieFile: Option<seq<string>>)
    returns (r: Result<seq<string>, AuthError>)
    ensures r.Failure? <==> !Configured(config, "gitcookies_path")
    ensures r.Failure? ==> r.error == MissingCookiePath
    ensures r.Success? && cookieFile.None? ==> r.value == ["curl", "-s", "-L"]
    ensures r.Success? && cookieFile.Some? ==>
              var found := LastCookie(DeriveDomain(baseUrl), cookieFile.value);
              r.value == if found.Some? then ["curl", "-b", found.value, "-L"]
                         else ["curl", "-s", "-L"]
  {
    var pathSetting := Get(config, "gitcookies_path");
    if !Truthy(pathSetting) {
      return Failure(MissingCookiePath);
    }
    var lastFoundCookie: Option<string> := None;
    if cookieFile.Some? {
      var domain := DeriveDomain(baseUrl);
      var lines := cookieFile.value;
      var i := 0;
      while i < |lines|
        invariant 0 <= i <= |lines|
        invariant lastFoundCookie == LastCookie(domain, lines[..i])
      {
        var line := lines[i];
        LastCookieStep(domain, lines, i);
        if Contains(line, domain) {
          var parts := Split(Strip(line), '\t');
          if |parts| == 7 {
            lastFoundCookie := Some(parts[5] + "=" + parts[6]);
          }
        }
        i := i + 1;
      }
      assert lines[..i] == lines;
      LastCookieNonEmpty(domain, lines);
      if Truthy(lastFoundCookie) {
        return Success(["curl", "-b", lastFoundCookie.value, "-L"]);
      }
    }
    return Success(["curl", "-s", "-L"]);
  }

  /** A line holding a well-formed entry whose domain field contains `host`
      yields the entry's `name=value`, whatever whitespace ends the line. */
  lemma EntryLineYieldsCookie(host: string, e: CookieEntry, eol: string)
    requires e.TabFree() && Contains(e.domain, host)
    requires |e.domain| > 0 && !IsSpace(e.domain[0])
    requires |e.value| > 0 && !IsSpace(e.value[|e.value| - 1])
    requires AllSpace(eol)
    ensures LineCookie(host, e.Line() + eol) == Some(e.name + "=" + e.value)
  {
    var line := e.Line();
    var rest := line[|e.domain|..];
    assert line == e.domain + rest;
    ContainsExtend(e.domain, rest + eol, host);
    assert line + eol == e.domain + (rest + eol);
    JoinEndsWith(e.Fields(), '\t');
    assert line[|line| - 1] == e.value[|e.value| - 1];
    StripSurrounded("", line, eol);
    assert "" + line + eol == line + eol;
    LineCookieOfEntry(host, line + eol, e);
  }

  /** The cookie round trip: a cookie file holding the entry for a host,
      scanned for a URL on that host, yields the entry's `name=value`. The
      entry's first and last characters are not whitespace, so that stripping
      the line only removes its line end. */
  lemma CookieRoundTrip(scheme: string, host: string, path: string, e: CookieEntry, eol: string)
    requires scheme == "https://" || scheme == "http://" || scheme == ""
    requires HostName(host)
    requires path == [] || path[0] == '/'
    requires e.TabFree() && Contains(e.domain, host)
    requires |e.domain| > 0 && !IsSpace(e.domain[0])
    requires |e.value| > 0 && !IsSpace(e.value[|e.value| - 1])
    requires AllSpace(eol)
    ensures LastCookie(DeriveDomain(scheme + host + path), [e.Line() + eol])
            == Some(e.name + "=" + e.value)
  {
    DomainOfUrl(scheme, host, path);
    EntryLineYieldsCookie(host, e, eol);
    LastCookieStep(host, [e.Line() + eol], 0);
  }
}
