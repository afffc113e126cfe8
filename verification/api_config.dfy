/** The frontend's API base URL (frontend/src/utils/apiConfig.ts): the
    configured server address is forced onto HTTPS, loses one trailing
    slash, gets "/api" and the endpoint appended, and has repeated slashes
    collapsed; without a configured address the relative "/api" path is
    used.  The build-time environment value is a parameter. */
module ApiConfig {
  import opened Text

  const Https: string := "https://"

  /** The regular expression ^https?:\/\/ with the i flag: a leading
      "http://" or "https://" in any letter case is removed. */
  function StripProtocol(s: string): (r: string)
    ensures |r| == |s| || |r| == |s| - 7 || |r| == |s| - 8
    ensures r == s[|s| - |r|..]
    ensures |s| >= 7 && Lower(s[..7]) == "http://" ==> r == s[7..]
    ensures |s| >= 8 && Lower(s[..8]) == "https://" ==> r == s[8..]
    ensures (|s| < 7 || Lower(s[..7]) != "http://") && (|s| < 8 || Lower(s[..8]) != "https://") ==> r == s
  {
    if |s| >= 7 && Lower(s[..7]) == "http://" then
      assert |s| >= 8 ==> Lower(s[..8]) != "https://" by {
        if |s| >= 8 { assert Lower(s[..8])[4] == LowerChar(s[4]) == Lower(s[..7])[4]; }
      }
      s[7..]
    else if |s| >= 8 && Lower(s[..8]) == "https://" then s[8..]
    else s
  }

  /** replace(/\/$/, ''): one trailing slash removed. */
  function DropTrailingSlash(s: string): (r: string)
    ensures |s| > 0 && s[|s| - 1] == '/' ==> r + "/" == s
    ensures |s| == 0 || s[|s| - 1] != '/' ==> r == s
  {
    if |s| > 0 && s[|s| - 1] == '/' then s[..|s| - 1] else s
  }

  /** The leading run of slashes removed. */
  function DropSlashes(s: string): (r: string)
    ensures r == [] || r[0] != '/'
    ensures |r| <= |s|
  {
    if |s| > 0 && s[0] == '/' then DropSlashes(s[1..]) else s
  }

  /** The regular expression ([^:]\/)\/+ matches at the start of s: a
      character other than ':' followed by two or more slashes. */
  predicate MatchAt(s: string, i: int)
  {
    0 <= i && i + 2 < |s| && s[i] != ':' && s[i + 1] == '/' && s[i + 2] == '/'
  }

  /** replace(/([^:]\/)\/+/g, '$1'), scanning left to right: each match keeps
      its first character and one slash, and scanning resumes after the
      slashes it consumed. */
  function Collapse(s: string): (r: string)
    ensures |r| <= |s|
    decreases |s|
  {
    if |s| == 0 then []
    else if MatchAt(s, 0) then [s[0], '/'] + Collapse(DropSlashes(s[2..]))
    else [s[0]] + Collapse(s[1..])
  }

  /** Two slashes start at position i. */
  predicate DoubleAt(s: string, i: int)
  {
    0 <= i && i + 1 < |s| && s[i] == '/' && s[i + 1] == '/'
  }

  /** Every "//" after the first position follows a ':' (as in "https://"). */
  predicate OnlyAfterColon(s: string)
  {
    forall i :: 0 < i < |s| && DoubleAt(s, i) ==> s[i - 1] == ':'
  }

  /** Collapsing keeps the first two characters. */
  lemma {:induction false} CollapseKeepsStart(s: string)
    ensures |s| >= 1 ==> |Collapse(s)| >= 1 && Collapse(s)[0] == s[0]
    ensures |s| >= 2 ==> |Collapse(s)| >= 2 && Collapse(s)[1] == s[1]
    ensures |s| <= 1 ==> Collapse(s) == s
  {
    if |s| >= 1 && !MatchAt(s, 0) {
      CollapseKeepsStart(s[1..]);
    }
  }

  /** Putting a character in front keeps the property, unless it creates a
      "//" after something other than ':'. */
  lemma ConsClean(c: char, r: string)
    requires OnlyAfterColon(r)
    requires DoubleAt(r, 0) ==> c == ':'
    ensures OnlyAfterColon([c] + r)
  {
    var s := [c] + r;
    forall i | 0 < i < |s| && DoubleAt(s, i) ensures s[i - 1] == ':' {
      if i > 1 {
        assert DoubleAt(r, i - 1);
      }
    }
  }

  /** One step of the scan at a match. */
  lemma CollapseAtMatch(s: string)
    requires MatchAt(s, 0)
    ensures Collapse(s) == [s[0]] + (['/'] + Collapse(DropSlashes(s[2..])))
  {
  }

  /** One step of the scan at a character that starts no match. */
  lemma CollapseAtCopy(s: string)
    requires |s| > 0 && !MatchAt(s, 0)
    ensures Collapse(s) == [s[0]] + Collapse(s[1..])
  {
  }

  /** A character and a slash in front of a clean string that does not
      start with a slash keep it clean. */
  lemma ConsSlashClean(a: char, c: string)
    requires OnlyAfterColon(c) && (c == [] || c[0] != '/')
    ensures OnlyAfterColon([a] + (['/'] + c))
  {
    ConsClean('/', c);
    ConsClean(a, ['/'] + c);
  }

  /** A match contributes its first character and one slash, and what
      follows does not start with another slash. */
  lemma CleanAfterMatch(s: string)
    requires MatchAt(s, 0)
    requires OnlyAfterColon(Collapse(DropSlashes(s[2..])))
    ensures OnlyAfterColon(Collapse(s))
  {
    var t := DropSlashes(s[2..]);
    CollapseKeepsStart(t);
    ConsSlashClean(s[0], Collapse(t));
    CollapseAtMatch(s);
  }

  /** A character that starts no match is copied in front of the rest. */
  lemma CleanAfterCopy(s: string)
    requires |s| > 0 && !MatchAt(s, 0)
    requires OnlyAfterColon(Collapse(s[1..]))
    ensures OnlyAfterColon(Collapse(s))
  {
    CollapseKeepsStart(s[1..]);
    ConsClean(s[0], Collapse(s[1..]));
    CollapseAtCopy(s);
  }

  /** After collapsing, a "//" appears only right after a ':' (or at the very
      start). */
  lemma {:induction false} CollapseClean(s: string)
    ensures OnlyAfterColon(Collapse(s))
    decreases |s|
  {
    if |s| > 0 {
      if MatchAt(s, 0) {
        CollapseClean(DropSlashes(s[2..]));
        CleanAfterMatch(s);
      } else {
        CollapseClean(s[1..]);
        CleanAfterCopy(s);
      }
    }
  }

  /** A string with nothing left to match is unchanged by collapsing. */
  lemma {:induction false} CollapseNoMatch(s: string)
    requires forall i :: 0 <= i < |s| ==> !MatchAt(s, i)
    ensures Collapse(s) == s
    decreases |s|
  {
    if |s| > 0 {
      forall i | 0 <= i < |s[1..]| ensures !MatchAt(s[1..], i) {
        assert !MatchAt(s, i + 1);
      }
      CollapseNoMatch(s[1..]);
    }
  }

  /** Collapsing twice is collapsing once. */
  lemma CollapseIdempotent(s: string)
    ensures Collapse(Collapse(s)) == Collapse(s)
  {
    var r := Collapse(s);
    CollapseClean(s);
    forall i | 0 <= i < |r| ensures !MatchAt(r, i) {
      if MatchAt(r, i) {
        assert DoubleAt(r, i + 1);
      }
    }
    CollapseNoMatch(r);
  }

  /** Where nothing matches in the first k positions, those characters are
      copied unchanged. */
  lemma {:induction false} CollapseCopies(s: string, k: nat)
    requires k <= |s|
    requires NoMatchBefore(s, k)
    ensures Collapse(s) == s[..k] + Collapse(s[k..])
  {
    if k > 0 {
      var t := s[1..];
      NoMatchShift(s, k);
      CollapseCopies(t, k - 1);
      CollapseAtCopy(s);
      var tail := Collapse(s[k..]);
      assert t[k - 1..] == s[k..];
      assert s[..k] == [s[0]] + t[..k - 1];
      ConsAppend(s[0], t[..k - 1], tail);
    }
  }

  lemma ConsAppend<T>(x: T, a: seq<T>, b: seq<T>)
    ensures [x] + (a + b) == ([x] + a) + b
  {
  }

  /** No match starts in the first k positions. */
  predicate NoMatchBefore(s: string, k: nat)
  {
    forall i :: 0 <= i < k ==> !MatchAt(s, i)
  }

  /** Dropping the first character shifts the match-free prefix by one. */
  lemma NoMatchShift(s: string, k: nat)
    requires 0 < k <= |s| && NoMatchBefore(s, k)
    ensures !MatchAt(s, 0) && NoMatchBefore(s[1..], k - 1)
  {
    forall i | 0 <= i < k - 1 ensures !MatchAt(s[1..], i) {
      assert !MatchAt(s, i + 1);
    }
  }

  /** What DropSlashes removes is a run of slashes at the front. */
  lemma {:induction false} DropSlashesSuffix(s: string)
    ensures var r := DropSlashes(s);
            && r == s[|s| - |r|..]
            && forall i :: 0 <= i < |s| - |r| ==> s[i] == '/'
  {
    if |s| > 0 && s[0] == '/' {
      DropSlashesSuffix(s[1..]);
    }
  }

  /** Dropping a leading run of slashes removes nothing else. */
  lemma {:induction false} DropSlashesOnlySlashes(t: string)
    ensures RemoveAll(DropSlashes(t), {'/'}) == RemoveAll(t, {'/'})
  {
    if |t| > 0 && t[0] == '/' {
      DropSlashesOnlySlashes(t[1..]);
      assert DropSlashes(t) == DropSlashes(t[1..]);
      assert RemoveAll(t, {'/'}) == RemoveAll(t[1..], {'/'});
    }
  }

  /** Collapsing removes slashes and nothing else: every other character
      is kept, in order. */
  lemma {:induction false} CollapseOnlySlashes(s: string)
    ensures RemoveAll(Collapse(s), {'/'}) == RemoveAll(s, {'/'})
    decreases |s|
  {
    if |s| > 0 {
      if MatchAt(s, 0) {
        CollapseOnlySlashes(DropSlashes(s[2..]));
        OnlySlashesAtMatch(s);
      } else {
        CollapseOnlySlashes(s[1..]);
        OnlySlashesAtCopy(s);
      }
    }
  }

  /** The step of CollapseOnlySlashes at a match. */
  lemma OnlySlashesAtMatch(s: string)
    requires MatchAt(s, 0)
    requires var t := DropSlashes(s[2..]); RemoveAll(Collapse(t), {'/'}) == RemoveAll(t, {'/'})
    ensures RemoveAll(Collapse(s), {'/'}) == RemoveAll(s, {'/'})
  {
    var t := DropSlashes(s[2..]);
    var head := RemoveAll([s[0], '/'], {'/'});
    assert RemoveAll(s, {'/'}) == head + RemoveAll(t, {'/'}) by {
      DropSlashesOnlySlashes(s[2..]);
      assert s == [s[0], '/'] + s[2..];
      RemoveAllAppend([s[0], '/'], s[2..], {'/'});
    }
    assert RemoveAll(Collapse(s), {'/'}) == head + RemoveAll(Collapse(t), {'/'}) by {
      CollapseAtMatch(s);
      assert Collapse(s) == [s[0], '/'] + Collapse(t);
      RemoveAllAppend([s[0], '/'], Collapse(t), {'/'});
    }
  }

  /** The step of CollapseOnlySlashes at a copied character. */
  lemma OnlySlashesAtCopy(s: string)
    requires |s| > 0 && !MatchAt(s, 0)
    requires RemoveAll(Collapse(s[1..]), {'/'}) == RemoveAll(s[1..], {'/'})
    ensures RemoveAll(Collapse(s), {'/'}) == RemoveAll(s, {'/'})
  {
    assert s == [s[0]] + s[1..];
    CollapseAtCopy(s);
    RemoveAllAppend([s[0]], s[1..], {'/'});
    RemoveAllAppend([s[0]], Collapse(s[1..]), {'/'});
  }

  /** n slashes. */
  function Slashes(n: nat): (r: string)
    ensures |r| == n && forall i :: 0 <= i < n ==> r[i] == '/'
  {
    if n == 0 then [] else ['/'] + Slashes(n - 1)
  }

  /** A run of slashes in front of text that does not start with one is
      dropped whole. */
  lemma {:induction false} DropSlashesRun(n: nat, t: string)
    requires t == [] || t[0] != '/'
    ensures DropSlashes(Slashes(n) + t) == t
  {
    if n > 0 {
      var u := Slashes(n - 1) + t;
      DropSlashesRun(n - 1, t);
      assert Slashes(n) + t == ['/'] + u by {
        assert Slashes(n) == ['/'] + Slashes(n - 1);
      }
      DropSlashesCons(u);
    } else {
      assert Slashes(n) + t == t;
    }
  }

  lemma DropSlashesCons(u: string)
    ensures DropSlashes(['/'] + u) == DropSlashes(u)
  {
    assert (['/'] + u)[1..] == u;
  }

  /** A character other than ':' followed by a run of two or more slashes
      keeps the character and exactly one slash. */
  lemma CollapseRun(c: char, n: nat, t: string)
    requires c != ':' && n >= 2
    requires t == [] || t[0] != '/'
    ensures Collapse([c] + Slashes(n) + t) == [c, '/'] + Collapse(t)
  {
    var s := [c] + Slashes(n) + t;
    var u := Slashes(n - 1) + t;
    assert s == [c, '/'] + u by {
      assert Slashes(n) == ['/'] + Slashes(n - 1);
    }
    RunStep(s, c, u);
    DropSlashesRun(n - 1, t);
  }

  /** The scan at a character other than ':' and a slash, followed by text
      that starts with a slash. */
  lemma RunStep(s: string, c: char, u: string)
    requires c != ':' && s == [c, '/'] + u && |u| > 0 && u[0] == '/'
    ensures Collapse(s) == [c, '/'] + Collapse(DropSlashes(u))
  {
    assert s[2..] == u;
    CollapseAtMatch(s);
  }

  /** Collapsing an address that starts with "https://" keeps that prefix. */
  lemma CollapseKeepsHttps(rest: string)
    ensures StartsWith(Collapse(Https + rest), Https)
  {
    var s := Https + rest;
    forall i | 0 <= i < 6 ensures !MatchAt(s, i) {
      assert s[i] == Https[i];
      assert i + 2 < 8 ==> s[i + 1] == Https[i + 1] && s[i + 2] == Https[i + 2];
    }
    assert NoMatchBefore(s, 6);
    CollapseCopies(s, 6);
    CollapseKeepsStart(s[6..]);
    var c := Collapse(s[6..]);
    assert Collapse(s)[..8] == s[..6] + c[..2];
  }

  /** "/api" followed by "/" and the endpoint when one is given. */
  function ApiPath(endpoint: string): string
  {
    if endpoint == [] then "/api" else "/api/" + endpoint
  }

  /** The base address after forcing HTTPS and dropping one trailing slash. */
  function CleanBase(env: string): string
  {
    DropTrailingSlash(if env == [] then [] else Https + StripProtocol(env))
  }

  /** The relative-path test as written: the cleaned base is empty or
      exactly "https://". */
  predicate RelativeAsWritten(env: string)
  {
    CleanBase(env) == [] || CleanBase(env) == Https
  }

  /** The relative-path test as intended: no address is configured, or
      nothing but a protocol and at most one slash. */
  predicate NoHost(env: string)
  {
    env == [] || StripProtocol(env) == [] || StripProtocol(env) == "/"
  }

  /** The absolute address: the cleaned base, the API path, slashes
      collapsed. */
  function Absolute(env: string, endpoint: string): (r: string)
    requires env != [] && StripProtocol(env) != []
    ensures StartsWith(r, Https) && OnlyAfterColon(r)
    ensures RemoveAll(r, {'/'}) == RemoveAll(CleanBase(env) + ApiPath(endpoint), {'/'})
  {
    var full := CleanBase(env) + ApiPath(endpoint);
    CollapseClean(full);
    CollapseOnlySlashes(full);
    assert full == Https + full[8..] by {
      var rest := StripProtocol(env);
      assert |Https + rest| >= 9;
      assert CleanBase(env)[..8] == Https;
    }
    CollapseKeepsHttps(full[8..]);
    Collapse(full)
  }

  /** getApiBaseUrl(endpoint) as written, for the environment value `env`. */
  function GetApiBaseUrlAsWritten(env: string, endpoint: string): string
  {
    if RelativeAsWritten(env) then ApiPath(endpoint)
    else Collapse(CleanBase(env) + ApiPath(endpoint))
  }

  /** The written test only catches a bare "/" after the protocol: a value
      that is a protocol alone leaves "https:" after the trailing slash is
      dropped, which is neither empty nor "https://". */
  lemma RelativeAsWrittenMissesProtocolOnly(env: string)
    requires env != []
    ensures RelativeAsWritten(env) <==> StripProtocol(env) == "/"
  {
    var rest := StripProtocol(env);
    if rest == [] {
      CleanBaseOf(env, rest);
      assert CleanBase(env) == "https:/";
    } else if rest == "/" {
      CleanBaseOf(env, rest);
    } else {
      CleanBaseLonger(env, rest);
    }
  }

  /** The cleaned base of a configured address is "https://" and the rest,
      less one trailing slash. */
  lemma CleanBaseOf(env: string, rest: string)
    requires env != [] && rest == StripProtocol(env)
    ensures CleanBase(env) == DropTrailingSlash(Https + rest)
  {
  }

  /** A rest other than "" and "/" leaves more than "https://". */
  lemma CleanBaseLonger(env: string, rest: string)
    requires env != [] && rest == StripProtocol(env) && rest != [] && rest != "/"
    ensures |CleanBase(env)| > |Https|
  {
    CleanBaseOf(env, rest);
    if rest[|rest| - 1] == '/' {
      assert |rest| >= 2;
    }
  }

  /** With VITE_API_URL set to "http://", the written code produces the
      absolute "https://api" instead of the relative "/api". */
  lemma ProtocolOnlyAsWritten()
    ensures GetApiBaseUrlAsWritten("http://", "") == "https://api"
    ensures GetApiBaseUrl("http://", "") == "/api"
  {
    var env := "http://";
    assert Lower(env[..7]) == "http://";
    RelativeAsWrittenMissesProtocolOnly(env);
    assert CleanBase(env) + ApiPath("") == "https://api";
    var s := "https://api";
    forall i | 0 <= i < |s| ensures !MatchAt(s, i) {
    }
    CollapseNoMatch(s);
  }

  /** getApiBaseUrl(endpoint), with the relative-path test catching every
      address without a host. */
  function GetApiBaseUrl(env: string, endpoint: string): (r: string)
    ensures env == [] ==> r == ApiPath(endpoint)
    ensures NoHost(env) ==> r == ApiPath(endpoint)
    ensures !NoHost(env) ==> StartsWith(r, Https) && OnlyAfterColon(r)
    ensures !NoHost(env) ==> RemoveAll(r, {'/'}) == RemoveAll(CleanBase(env) + ApiPath(endpoint), {'/'})
  {
    if NoHost(env) then ApiPath(endpoint) else Absolute(env, endpoint)
  }

  /** The two differ only on a protocol with nothing after it. */
  lemma AsWrittenAgrees(env: string, endpoint: string)
    requires env == [] || StripProtocol(env) != []
    ensures GetApiBaseUrlAsWritten(env, endpoint) == GetApiBaseUrl(env, endpoint)
  {
    if env != [] {
      RelativeAsWrittenMissesProtocolOnly(env);
    }
  }

  /** Text after the eighth character is kept by the protocol strip. */
  lemma StripProtocolAppend(env: string, x: string)
    requires |env| >= 8
    ensures StripProtocol(env + x) == StripProtocol(env) + x
  {
    var e := env + x;
    assert e[..7] == env[..7] && e[..8] == env[..8];
    assert e[7..] == env[7..] + x && e[8..] == env[8..] + x;
  }

  /** A configured address that does not end in a slash keeps something
      after the protocol strip. */
  lemma StripProtocolNonEmpty(env: string)
    requires env != [] && env[|env| - 1] != '/'
    ensures StripProtocol(env) != []
  {
    var r := StripProtocol(env);
    if |env| == 7 {
      assert Lower(env[..7])[6] == LowerChar(env[6]) != '/';
    } else if |env| == 8 {
      assert Lower(env[..8])[7] == LowerChar(env[7]) != '/';
    }
  }

  /** One trailing slash on the configured address leaves the cleaned base
      as it was, unless that slash completes the protocol itself. */
  lemma CleanBaseSlash(env: string)
    requires env != [] && env[|env| - 1] != '/'
    requires StripProtocol(env + "/") == StripProtocol(env) + "/"
    ensures CleanBase(env + "/") == CleanBase(env)
    ensures NoHost(env + "/") <==> NoHost(env)
  {
    var rest := StripProtocol(env);
    StripProtocolNonEmpty(env);
    assert rest[|rest| - 1] == env[|env| - 1] by {
      assert rest == env[|env| - |rest|..];
    }
    CleanBaseOf(env, rest);
    CleanBaseOf(env + "/", rest + "/");
    assert Https + (rest + "/") == (Https + rest) + "/";
    DropAddedSlash(Https + rest);
  }

  /** An address of eight or more characters always meets CleanBaseSlash's
      condition: a slash added at the end survives the protocol strip. */
  lemma LongAddressKeepsSlash(env: string)
    requires |env| >= 8
    ensures StripProtocol(env + "/") == StripProtocol(env) + "/"
  {
    StripProtocolAppend(env, "/");
  }

  /** Adding a slash to a string that has none at the end and dropping it
      again gives the string back. */
  lemma DropAddedSlash(s: string)
    ensures DropTrailingSlash(s + "/") == s
  {
    assert (s + "/")[..|s|] == s;
  }

  /** One trailing slash on the configured address makes no difference. */
  lemma TrailingSlashIgnored(env: string, endpoint: string)
    requires env != [] && env[|env| - 1] != '/'
    requires StripProtocol(env + "/") == StripProtocol(env) + "/"
    ensures GetApiBaseUrl(env + "/", endpoint) == GetApiBaseUrl(env, endpoint)
  {
    CleanBaseSlash(env);
  }

  /** The API path has no "//" when the endpoint has none and does not
      start with a slash. */
  lemma ApiPathNoDouble(e: string)
    requires e == [] || e[0] != '/'
    requires forall i :: !DoubleAt(e, i)
    ensures forall j :: !DoubleAt(ApiPath(e), j)
  {
    var p := ApiPath(e);
    forall j | 5 <= j < |p| - 1 ensures !DoubleAt(p, j) {
      assert p[j] == e[j - 5] && p[j + 1] == e[j - 4];
      assert !DoubleAt(e, j - 5);
    }
  }

  /** Text without slashes in front of text without "//" adds none. */
  lemma JoinNoDouble(h: string, p: string)
    requires forall i :: 0 <= i < |h| ==> h[i] != '/'
    requires forall j :: !DoubleAt(p, j)
    ensures forall j :: !DoubleAt(h + p, j)
  {
    var t := h + p;
    forall j | 0 <= j < |t| - 1 ensures !DoubleAt(t, j) {
      if j < |h| {
        assert t[j] == h[j];
      } else {
        assert t[j] == p[j - |h|] && t[j + 1] == p[j - |h| + 1];
        assert !DoubleAt(p, j - |h|);
      }
    }
  }

  /** "https://" in front of text without "//" that does not start with a
      slash leaves nothing for the replacement to match. */
  lemma HttpsNoMatch(t: string)
    requires t == [] || t[0] != '/'
    requires forall j :: !DoubleAt(t, j)
    ensures forall i :: !MatchAt(Https + t, i)
  {
    var s := Https + t;
    forall i | 0 <= i < |s| - 2 ensures !MatchAt(s, i) {
      if i >= 7 {
        assert s[i + 1] == t[i - 7] && s[i + 2] == t[i - 6];
        assert !DoubleAt(t, i - 7);
      } else if i == 6 {
        assert s[8] == t[0];
      } else {
        assert s[..8] == Https;
        assert s[i] == Https[i] && s[i + 1] == Https[i + 1] && s[i + 2] == Https[i + 2];
      }
    }
  }

  /** The protocol strip takes "http://" or "https://" off a host. */
  lemma StripProtocolHost(h: string)
    ensures StripProtocol("http://" + h) == h
    ensures StripProtocol("https://" + h) == h
  {
    var a := "http://" + h;
    assert a[..7] == "http://";
    assert Lower("http://") == "http://";
    assert a[7..] == h;
    var b := "https://" + h;
    assert b[..7] == "https:/" && b[..8] == "https://";
    assert Lower("https:/")[4] == 's' && "http://"[4] == ':';
    assert Lower("https://") == "https://";
    assert b[8..] == h;
  }

  /** For a host without slashes, given with "http://" or "https://", and
      an endpoint without "//" that does not start with a slash, the URL is
      "https://", the host, "/api" and the endpoint, with nothing
      collapsed. */
  lemma HostUrl(h: string, e: string)
    requires h != [] && forall i :: 0 <= i < |h| ==> h[i] != '/'
    requires e == [] || e[0] != '/'
    requires forall i :: !DoubleAt(e, i)
    ensures GetApiBaseUrl("http://" + h, e) == Https + h + ApiPath(e)
    ensures GetApiBaseUrl("https://" + h, e) == Https + h + ApiPath(e)
  {
    StripProtocolHost(h);
    HostUrlFrom("http://" + h, h, e);
    HostUrlFrom("https://" + h, h, e);
  }

  /** HostUrl for any address whose protocol strip leaves the host. */
  lemma HostUrlFrom(env: string, h: string, e: string)
    requires env != [] && StripProtocol(env) == h
    requires h != [] && forall i :: 0 <= i < |h| ==> h[i] != '/'
    requires e == [] || e[0] != '/'
    requires forall i :: !DoubleAt(e, i)
    ensures GetApiBaseUrl(env, e) == Https + h + ApiPath(e)
  {
    HostBase(env, h);
    HostPathCollapsed(h, e);
    JoinUrl(env, h, e);
  }

  /** Joins the two halves: a base that is "https://" and the host, and a
      collapse that leaves the joined text alone. */
  lemma JoinUrl(env: string, h: string, e: string)
    requires !NoHost(env) && CleanBase(env) == Https + h
    requires Collapse(Https + (h + ApiPath(e))) == Https + (h + ApiPath(e))
    ensures GetApiBaseUrl(env, e) == Https + h + ApiPath(e)
  {
    var p := ApiPath(e);
    ConcatAssoc(Https, h, p);
    UrlIsCollapse(env, e);
  }

  /** Concatenation regroups freely. */
  lemma ConcatAssoc(a: string, b: string, c: string)
    ensures a + b + c == a + (b + c)
  {
  }

  /** With a host, the URL is the collapsed join of base and path. */
  lemma UrlIsCollapse(env: string, e: string)
    requires !NoHost(env)
    ensures GetApiBaseUrl(env, e) == Collapse(CleanBase(env) + ApiPath(e))
  {
  }

  /** A host without slashes is a usable host, and the cleaned base is
      "https://" and the host. */
  lemma HostBase(env: string, h: string)
    requires env != [] && StripProtocol(env) == h
    requires h != [] && forall i :: 0 <= i < |h| ==> h[i] != '/'
    ensures !NoHost(env) && CleanBase(env) == Https + h
  {
    assert h != "/" by { assert h[0] != '/'; }
    CleanBaseOf(env, h);
    assert (Https + h)[|Https + h| - 1] == h[|h| - 1];
  }

  /** Collapsing leaves "https://", a host without slashes and an API path
      without "//" as they are. */
  lemma HostPathCollapsed(h: string, e: string)
    requires h != [] && forall i :: 0 <= i < |h| ==> h[i] != '/'
    requires e == [] || e[0] != '/'
    requires forall i :: !DoubleAt(e, i)
    ensures Collapse(Https + (h + ApiPath(e))) == Https + (h + ApiPath(e))
  {
    var t := h + ApiPath(e);
    ApiPathNoDouble(e);
    JoinNoDouble(h, ApiPath(e));
    HttpsNoMatch(t);
    CollapseNoMatch(Https + t);
  }

  /** The result is already collapsed: running the replacement again does
      not change it. */
  lemma GetApiBaseUrlCollapsed(env: string, endpoint: string)
    requires !NoHost(env)
    ensures Collapse(GetApiBaseUrl(env, endpoint)) == GetApiBaseUrl(env, endpoint)
  {
    CollapseIdempotent(CleanBase(env) + ApiPath(endpoint));
  }
}
