# Gerrit authentication commands, modelled in Dafny

This project models `gerrit_mcp_server/gerrit_auth.py`, the module that builds
the curl argument vector used to talk to a Gerrit server under one of three
authentication methods:

- **gob**: always `["gob-curl", "-s"]`, whatever the configuration.
- **http_basic**: the user name is `username`, or `user` when `username` is
  unset or empty; the secret is `auth_token`, or `password` likewise. Both must
  end up non-empty, or the configuration is rejected (a `ValueError`);
  otherwise the vector is `["curl", "--user", "<user>:<secret>", "-L"]`.
- **gitcookies**: `gitcookies_path` must be set (else a `ValueError`). When
  the cookie file exists, the target domain is derived from the base URL
  (every `https://`, then every `http://` removed, cut before the first `/`),
  the file is scanned line by line, and each line that contains the domain
  and, once stripped, splits on tabs into exactly seven fields (the Netscape
  cookie-file layout) replaces the remembered credential with
  `name=value`. The last such line wins. The vector is
  `["curl", "-b", "<name=value>", "-L"]` if a credential was found, and
  `["curl", "-s", "-L"]` (unauthenticated) when the file is missing or no line
  qualifies.

Two files:

- `text.dfy`, module `Text`: the Python string operations the module relies
  on, character by character: `needle in hay` (`Contains`), `s.replace(pat, "")`
  (`RemoveAll`), `s.split(sep)` for a one-character separator (`Split`, with
  `Join` as its inverse) and `s.strip()` (`Strip`, over the whitespace set of
  Python's `str.isspace`).
- `gerrit_auth.dfy`, module `GerritAuth`: the configuration (`map<string,
  string>`; an absent key or an empty string is falsy), the errors
  (`MissingCredential`, `MissingCookiePath`) as a `Result` failure, the two
  pure builders as functions, and the gitcookies builder as a method whose loop
  overwrites `lastFoundCookie` exactly as the source does. The loop invariant
  ties that variable to `LastCookie`, a function that reads the file from its
  end. The cookie file is an input: `None` when nothing exists at the
  configured path, otherwise its lines as file iteration delivers them (line
  ends included).

Where the code and a plain reading of its purpose differ, the model follows the
code:

- The domain test (`gerrit_auth.py:60`) looks for the domain anywhere in the raw
  line, before stripping and splitting, not only in the first (domain) field.
  So a domain that appears in the path, the name or the value field also
  selects the line. `LineCookieOfEntry` states this: it asks only that the
  domain occur somewhere in the line.
- `replace` (`gerrit_auth.py:56`) removes every occurrence of `https://` and
  `http://`, not only a leading one. The scan is single-pass, so text that
  comes together only after a removal is kept.
- An empty derived domain (for example, base URL `https://`) is contained in
  every line, so every seven-field line qualifies.
- `strip()` (`gerrit_auth.py:61`) runs before the tab split, so an entry whose
  first field begins or whose last field ends with whitespace loses it. An
  entry with an empty value is written with a trailing tab; stripping removes
  that tab, the line splits into six fields, and the entry is silently ignored
  (`EmptyValueIgnored`). If no other line qualifies, the builder then falls
  back to the unauthenticated `["curl", "-s", "-L"]`.

## Model

| member | source | states |
|---|---|---|
| `GerritAuth.GobAuth` | gerrit_mcp_server/gerrit_auth.py:23-25 | the gob vector is `["gob-curl", "-s"]` for every configuration |
| `GerritAuth.Get` | gerrit_mcp_server/gerrit_auth.py:30-31 | `config.get(key)` is present exactly when the key is configured, and is then its configured value |
| `GerritAuth.Truthy` | gerrit_mcp_server/gerrit_auth.py:32 | a configuration value is truthy exactly when it is neither absent (`None`) nor the empty string, the falsy values tested at lines 32, 46 and 65 |
| `GerritAuth.Or` | gerrit_mcp_server/gerrit_auth.py:30-31 | `a or b` is truthy exactly when one of `a`, `b` is, and is then `a` if `a` is truthy, else `b` |
| `GerritAuth.HttpBasicAuth` | gerrit_mcp_server/gerrit_auth.py:28-37 | succeeds exactly when (`username` or `user`) and (`auth_token` or `password`) are configured non-empty, fails with `MissingCredential` otherwise; on success returns exactly the 4-element `["curl", "--user", user + ":" + secret, "-L"]`, `username` taking precedence over `user` and `auth_token` over `password` |
| `GerritAuth.BasicCredentialRoundTrip` | gerrit_mcp_server/gerrit_auth.py:37 | reading the `--user` argument back (user before the first colon, password after it) gives the configured user name and secret when the user name has no colon |
| `GerritAuth.StripSchemes` | gerrit_mcp_server/gerrit_auth.py:56 | removing the schemes never lengthens the URL, and leaves a URL holding neither `https://` nor `http://` unchanged |
| `GerritAuth.DeriveDomain` | gerrit_mcp_server/gerrit_auth.py:55-57 | the domain has no `/`, is a prefix of the URL with all `https://` then all `http://` removed, and is either all of it or stops just before its first `/` |
| `GerritAuth.DomainOfUrl` | gerrit_mcp_server/gerrit_auth.py:55-57 | for a URL `scheme + host + path` (scheme `https://`, `http://` or none; host without `/` and not ending in `:`; path empty or starting with `/`) the domain is the host |
| `GerritAuth.LineCookie` | gerrit_mcp_server/gerrit_auth.py:60-63 | a line without the domain yields nothing; a line that yields a credential strips to a seven-field, tab-separated entry and the credential is its `name=value` |
| `GerritAuth.LineCookieOfEntry` | gerrit_mcp_server/gerrit_auth.py:60-63 | conversely, a line that contains the domain anywhere and strips to a well-formed entry yields that entry's `name=value` |
| `GerritAuth.LastCookieStep` | gerrit_mcp_server/gerrit_auth.py:59-63 | one more line replaces the remembered credential exactly when it yields one, and leaves it otherwise |
| `GerritAuth.LastCookieNonEmpty` | gerrit_mcp_server/gerrit_auth.py:53-65 | the remembered credential after the scan is never empty, so the truthiness test at line 65 only tells found from not found |
| `GerritAuth.LastCookie` | gerrit_mcp_server/gerrit_auth.py:59-63 | the credential the scan remembers: what the last line, in file order, that yields one yields; `CookieLastMatchWins` and `LastCookieStep` state its properties |
| `GerritAuth.NoMatchIffNoLine` | gerrit_mcp_server/gerrit_auth.py:59-63 | the scan finds nothing exactly when no line yields anything |
| `GerritAuth.LastMatchWins` | gerrit_mcp_server/gerrit_auth.py:59-63 | what the scan finds is what some line yields, and no later line yields anything |
| `GerritAuth.CookieLastMatchWins` | gerrit_mcp_server/gerrit_auth.py:59-63 | for the cookie file: no credential exactly when no line qualifies, otherwise the credential of the last qualifying line in file order |
| `GerritAuth.LastMatchAppend` | gerrit_mcp_server/gerrit_auth.py:59-63 | scanning `a` then `b`, a match in `b` overrides any match in `a` |
| `GerritAuth.IgnoredLine` | gerrit_mcp_server/gerrit_auth.py:59-63 | a line that yields nothing, inserted anywhere, never changes the result |
| `GerritAuth.GitCookiesAuth` | gerrit_mcp_server/gerrit_auth.py:40-69 | fails with `MissingCookiePath` exactly when `gitcookies_path` is missing or empty, whatever the URL and file; with no file returns `["curl", "-s", "-L"]`; otherwise `["curl", "-b", c, "-L"]` when the last qualifying line yields `c`, and `["curl", "-s", "-L"]` when none qualifies |
| `GerritAuth.EntryLineYieldsCookie` | gerrit_mcp_server/gerrit_auth.py:60-63 | a line holding a tab-free entry whose domain field contains the domain and does not begin with whitespace, and whose value is non-empty and does not end with whitespace, followed by any whitespace line end, yields the entry's `name=value` |
| `GerritAuth.EmptyValueIgnored` | gerrit_mcp_server/gerrit_auth.py:61-62 | a line holding a tab-free entry with an empty value (domain not beginning and name not ending with whitespace), followed by any whitespace line end, yields nothing for any domain: `strip()` removes the tab before the empty value and only six fields remain |
| `GerritAuth.CookieRoundTrip` | gerrit_mcp_server/gerrit_auth.py:55-66 | a cookie file holding one tab-free entry, whose domain field contains the URL's host and does not begin with whitespace and whose value is non-empty and does not end with whitespace, scanned for that URL (scheme `https://`, `http://` or none; host without `/` and not ending in `:`; path empty or starting with `/`), yields the entry's `name=value`; entries outside these conditions are covered by `EmptyValueIgnored` and `LineCookie` |
| `Text.Contains` | gerrit_mcp_server/gerrit_auth.py:60 | `needle in hay` as a left-to-right search; a needle longer than the hay is never found |
| `Text.ContainsIffOccurs` | gerrit_mcp_server/gerrit_auth.py:60 | `needle in hay` holds exactly when the needle occurs at some position of the hay |
| `Text.RemoveAll` | gerrit_mcp_server/gerrit_auth.py:56 | `replace(pat, "")` never lengthens the text and keeps a first character that cannot start the pattern |
| `Text.RemoveAllFirstOccurrence` | gerrit_mcp_server/gerrit_auth.py:56 | the first occurrence of the pattern, wherever it starts, is deleted: the text before it is kept and the removal resumes right after it; with `RemoveAllWithoutOccurrence` this determines the result, so every non-overlapping occurrence met left to right is removed, not only a leading one |
| `Text.RemoveAllKeepsPrefix` | gerrit_mcp_server/gerrit_auth.py:56 | a prefix in which no occurrence starts comes through the removal unchanged |
| `Text.RemoveAllWithoutOccurrence` | gerrit_mcp_server/gerrit_auth.py:56 | text without an occurrence of the pattern is unchanged |
| `Text.Split` | gerrit_mcp_server/gerrit_auth.py:61 | `split(sep)` gives at least one part, no part holds the separator, and the first part is the text up to the first separator |
| `Text.JoinOfSplit` | gerrit_mcp_server/gerrit_auth.py:61 | joining the parts with the separator gives the text back |
| `Text.SplitOfJoin` | gerrit_mcp_server/gerrit_auth.py:61 | splitting the join of separator-free parts gives the parts back |
| `Text.Strip` | gerrit_mcp_server/gerrit_auth.py:61 | `strip()` returns the stretch of the text that starts after its leading whitespace, is followed by whitespace only, and neither begins nor ends with whitespace |
| `Text.StripSurrounded` | gerrit_mcp_server/gerrit_auth.py:61 | whitespace around a stretch with non-whitespace ends is exactly what `strip()` removes |

## Left out

- The method-name dispatcher that picks one of the three builders, and its
  error for an unknown method, are not part of `gerrit_auth.py`; they are not
  modelled.
- `os.path.expanduser`, `os.path.exists` and reading the file (lines 51, 54,
  58-59) are file-system I/O. The model takes the file's lines, or `None` when
  nothing exists at the path, as a parameter of `GitCookiesAuth`.
- A file that exists but cannot be opened or decoded makes `open` or the line
  iteration raise in the source; the model has no input for a failed read.
- Configuration values are strings. Python's `Any` values (`None`, numbers, or
  other objects and how an f-string renders them) are not modelled; an absent
  key or an empty string stands for every falsy value.
- Running the curl command is process I/O and is not modelled.
- How curl splits a `--user` argument (at the first colon, `CurlUserName` and
  `CurlPassword`) is the model's statement of curl's behaviour; curl itself is
  not modelled.
