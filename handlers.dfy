/**
 * The decisions the HTTP handlers of server/main.go make before any session lookup or call
 * to Spotify: the preflight answer, the method check, the `session_id` and playlist-id
 * checks with the `strings.Split` parsing of the path, the list of missing environment
 * variables of `checkEnv`, and the rule by which the `/` handler falls back to the
 * single-page app. A request is its method, its URL path and the `session_id` query value
 * (`""` when absent, as `Query().Get` gives). The HTTP method is called `verb` here.
 */
module RequestRouting {
  const StatusOK: int := 200
  const StatusBadRequest: int := 400
  const StatusMethodNotAllowed: int := 405

  datatype Request = Request(verb: string, path: string, sessionId: string)

  /** Why a handler answers before doing any work. */
  datatype Reason = Preflight | WrongMethod | NoSessionId | BadPath | NoPlaylistId

  /** A handler either answers at once or goes on to look the session up. */
  datatype Gate =
    | Answer(status: int, reason: Reason)
    | Proceed(sessionId: string)
    | ProceedWithPlaylist(sessionId: string, playlistId: string)

  /** `data` and `user`: a preflight gets 200, a request without a session id 400. */
  function SessionGate(r: Request): Gate
  {
    if r.verb == "OPTIONS" then Answer(StatusOK, Preflight)
    else if r.sessionId == "" then Answer(StatusBadRequest, NoSessionId)
    else Proceed(r.sessionId)
  }

  /** `logout`: only POST goes on, and the method is checked before the session id. */
  function LogoutGate(r: Request): Gate
  {
    if r.verb == "OPTIONS" then Answer(StatusOK, Preflight)
    else if r.verb != "POST" then Answer(StatusMethodNotAllowed, WrongMethod)
    else if r.sessionId == "" then Answer(StatusBadRequest, NoSessionId)
    else Proceed(r.sessionId)
  }

  /** The string has no occurrence of the separator. */
  predicate NoSep(w: string, sep: char)
  {
    forall j :: 0 <= j < |w| ==> w[j] != sep
  }

  /**
   * The pieces of `s` when the piece being read so far is `piece`: a separator closes the
   * current piece, any other character extends it, and the end closes the last one.
   */
  function SplitFrom(s: string, sep: char, piece: string): (parts: seq<string>)
    ensures |parts| >= 1
  {
    if s == [] then [piece]
    else if s[0] == sep then [piece] + SplitFrom(s[1..], sep, "")
    else SplitFrom(s[1..], sep, piece + [s[0]])
  }

  /** `strings.Split(s, sep)` for a one-character separator. */
  function Split(s: string, sep: char): (parts: seq<string>)
    ensures |parts| >= 1
  {
    SplitFrom(s, sep, "")
  }

  /** `strings.Join(parts, sep)`. */
  function Join(parts: seq<string>, sep: char): string
    requires |parts| >= 1
  {
    if |parts| == 1 then parts[0] else parts[0] + [sep] + Join(parts[1..], sep)
  }

  /** The number of occurrences of the separator. */
  function Count(s: string, sep: char): nat
  {
    if s == [] then 0 else (if s[0] == sep then 1 else 0) + Count(s[1..], sep)
  }

  lemma {:induction false} SplitFromCount(s: string, sep: char, piece: string)
    ensures |SplitFrom(s, sep, piece)| == Count(s, sep) + 1
  {
    if s != [] {
      SplitFromCount(s[1..], sep, if s[0] == sep then "" else piece + [s[0]]);
    }
  }

  lemma {:induction false} SplitFromPiecesWithoutSep(s: string, sep: char, piece: string)
    requires NoSep(piece, sep)
    ensures forall m :: 0 <= m < |SplitFrom(s, sep, piece)| ==> NoSep(SplitFrom(s, sep, piece)[m], sep)
  {
    if s != [] {
      if s[0] == sep {
        SplitFromPiecesWithoutSep(s[1..], sep, "");
        var parts := SplitFrom(s, sep, piece);
        assert parts[1..] == SplitFrom(s[1..], sep, "");
        forall m | 0 < m < |parts| ensures NoSep(parts[m], sep) {
          assert parts[m] == parts[1..][m - 1];
        }
      } else {
        SplitFromPiecesWithoutSep(s[1..], sep, piece + [s[0]]);
      }
    }
  }

  lemma {:induction false} SplitFromJoin(s: string, sep: char, piece: string)
    ensures Join(SplitFrom(s, sep, piece), sep) == piece + s
  {
    if s != [] {
      if s[0] == sep {
        SplitFromJoin(s[1..], sep, "");
        var parts := SplitFrom(s, sep, piece);
        assert parts[1..] == SplitFrom(s[1..], sep, "");
        assert s == [sep] + s[1..];
      } else {
        SplitFromJoin(s[1..], sep, piece + [s[0]]);
        assert piece + [s[0]] + s[1..] == piece + s;
      }
    }
  }

  /**
   * Split gives one more piece than there are separators, no piece contains the
   * separator, and joining the pieces with it gives the string back.
   */
  lemma SplitProperties(s: string, sep: char)
    ensures |Split(s, sep)| == Count(s, sep) + 1
    ensures forall m :: 0 <= m < |Split(s, sep)| ==> NoSep(Split(s, sep)[m], sep)
    ensures Join(Split(s, sep), sep) == s
  {
    SplitFromCount(s, sep, "");
    SplitFromPiecesWithoutSep(s, sep, "");
    SplitFromJoin(s, sep, "");
  }

  /** A run of characters other than the separator only extends the current piece. */
  lemma {:induction false} SplitFromWord(w: string, rest: string, sep: char, piece: string)
    requires NoSep(w, sep)
    ensures SplitFrom(w + rest, sep, piece) == SplitFrom(rest, sep, piece + w)
  {
    if w == [] {
      assert w + rest == rest && piece + w == piece;
    } else {
      assert (w + rest)[1..] == w[1..] + rest;
      SplitFromWord(w[1..], rest, sep, piece + [w[0]]);
      assert piece + [w[0]] + w[1..] == piece + w;
    }
  }

  /** A word followed by the separator is one piece, and splitting starts afresh after it. */
  lemma SplitFromWordThenSep(w: string, rest: string, sep: char)
    requires NoSep(w, sep)
    ensures SplitFrom(w + [sep] + rest, sep, "") == [w] + SplitFrom(rest, sep, "")
  {
    SplitFromWord(w, [sep] + rest, sep, "");
    assert w + [sep] + rest == w + ([sep] + rest);
    assert ([sep] + rest)[1..] == rest;
    assert "" + w == w;
  }

  /** A word without the separator is a single piece. */
  lemma SplitWord(w: string, sep: char)
    requires NoSep(w, sep)
    ensures Split(w, sep) == [w]
  {
    SplitFromWord(w, "", sep, "");
    assert w + "" == w && "" + w == w;
  }

  /**
   * `playlistTracks`: a preflight gets 200; a path of fewer than three pieces gets 400; the
   * playlist id is the third piece; a missing session id gets 400 and only then an empty
   * playlist id gets 400.
   */
  function PlaylistGate(r: Request): Gate
  {
    if r.verb == "OPTIONS" then Answer(StatusOK, Preflight)
    else
      var pathParts := Split(r.path, '/');
      if |pathParts| < 3 then Answer(StatusBadRequest, BadPath)
      else
        var playlistId := pathParts[2];
        if r.sessionId == "" then Answer(StatusBadRequest, NoSessionId)
        else if playlistId == "" then Answer(StatusBadRequest, NoPlaylistId)
        else ProceedWithPlaylist(r.sessionId, playlistId)
  }

  /** A preflight request is answered 200 by every handler, whatever else it carries. */
  lemma PreflightAlwaysOk(path: string, sessionId: string)
    ensures var r := Request("OPTIONS", path, sessionId);
      && SessionGate(r) == Answer(StatusOK, Preflight)
      && LogoutGate(r) == Answer(StatusOK, Preflight)
      && PlaylistGate(r) == Answer(StatusOK, Preflight)
  {
  }

  /** `logout` answers 405 to every method but POST and OPTIONS, with or without a session id. */
  lemma LogoutRejectsOtherMethods(r: Request)
    ensures LogoutGate(r) == Answer(StatusMethodNotAllowed, WrongMethod) <==> r.verb != "OPTIONS" && r.verb != "POST"
    ensures LogoutGate(r).Proceed? <==> r.verb == "POST" && r.sessionId != ""
  {
  }

  /**
   * The handlers that go on carry the request's own session id, which is never empty, and
   * the playlist handler's id is a non-empty piece of the path between two slashes.
   */
  lemma {:induction false} ProceedCarriesRequestIds(r: Request)
    ensures SessionGate(r).Proceed? ==> SessionGate(r).sessionId == r.sessionId != ""
    ensures PlaylistGate(r).ProceedWithPlaylist? ==>
      && PlaylistGate(r).sessionId == r.sessionId != ""
      && PlaylistGate(r).playlistId != ""
      && PlaylistGate(r).playlistId == Split(r.path, '/')[2]
      && NoSep(PlaylistGate(r).playlistId, '/')
  {
    SplitProperties(r.path, '/');
  }

  /** A path with fewer than two slashes has fewer than three pieces and is refused. */
  lemma {:induction false} PlaylistPathNeedsTwoSlashes(r: Request)
    requires r.verb != "OPTIONS" && Count(r.path, '/') < 2
    ensures PlaylistGate(r) == Answer(StatusBadRequest, BadPath)
  {
    SplitFromCount(r.path, '/', "");
  }

  lemma SplitAbcX()
    ensures Split("abc/x", '/') == ["abc", "x"]
  {
    var x := "x";
    assert "abc/x" == "abc" + ['/'] + x;
    SplitFromWordThenSep("abc", x, '/');
    SplitWord(x, '/');
  }

  lemma SplitPlaylistAbcX()
    ensures Split("playlist/abc/x", '/') == ["playlist", "abc", "x"]
  {
    var rest := "abc/x";
    assert "playlist/abc/x" == "playlist" + ['/'] + rest;
    SplitFromWordThenSep("playlist", rest, '/');
    SplitAbcX();
  }

  lemma SplitPlaylistPath()
    ensures Split("/playlist/abc/x", '/') == ["", "playlist", "abc", "x"]
  {
    var rest := "playlist/abc/x";
    assert "/playlist/abc/x" == "" + ['/'] + rest;
    SplitFromWordThenSep("", rest, '/');
    SplitPlaylistAbcX();
  }

  lemma SplitPlaylistPrefix()
    ensures Split("/playlist/", '/') == ["", "playlist", ""]
  {
    var rest := "playlist" + ['/'] + "";
    assert "/playlist/" == "" + ['/'] + rest;
    SplitFromWordThenSep("", rest, '/');
    SplitFromWordThenSep("playlist", "", '/');
  }

  lemma SplitPlaylistBare()
    ensures Split("/playlist", '/') == ["", "playlist"]
  {
    assert "/playlist" == "" + ['/'] + "playlist";
    SplitFromWordThenSep("", "playlist", '/');
    SplitWord("playlist", '/');
  }

  /**
   * "/playlist/abc/x" names playlist "abc"; "/playlist/" passes the path check, so it is
   * refused for its missing session id when there is none and for its empty playlist id
   * otherwise; "/playlist" is refused for its path.
   */
  lemma PlaylistGateExamples()
    ensures PlaylistGate(Request("GET", "/playlist/abc/x", "s1")) == ProceedWithPlaylist("s1", "abc")
    ensures PlaylistGate(Request("GET", "/playlist/", "")) == Answer(StatusBadRequest, NoSessionId)
    ensures PlaylistGate(Request("GET", "/playlist/", "s1")) == Answer(StatusBadRequest, NoPlaylistId)
    ensures PlaylistGate(Request("GET", "/playlist", "s1")) == Answer(StatusBadRequest, BadPath)
  {
    SplitPlaylistPath();
    SplitPlaylistPrefix();
    SplitPlaylistBare();
  }

  /** The variables `checkEnv` requires, in its order. */
  const RequiredEnvVars: seq<string> := ["SPOTIFY_CLIENT_ID", "SPOTIFY_CLIENT_SECRET", "REDIRECT_URI", "FRONTEND_URL", "REDIS_URI"]

  /** `os.Getenv`: the empty string for an unset variable. */
  function Getenv(env: map<string, string>, name: string): string
  {
    if name in env then env[name] else ""
  }

  /** The variables of `vars` that are unset or empty, in the order of `vars`. */
  function Missing(vars: seq<string>, env: map<string, string>): seq<string>
  {
    if vars == [] then []
    else
      var n := |vars| - 1;
      Missing(vars[..n], env) + (if Getenv(env, vars[n]) == "" then [vars[n]] else [])
  }

  /** The missing list of a list of variables is that of its first part followed by that of the rest. */
  lemma {:induction false} MissingAppend(a: seq<string>, b: seq<string>, env: map<string, string>)
    ensures Missing(a + b, env) == Missing(a, env) + Missing(b, env)
    decreases |b|
  {
    if b == [] {
      assert a + b == a;
    } else {
      var n := |b| - 1;
      assert (a + b)[..|a + b| - 1] == a + b[..n];
      MissingAppend(a, b[..n], env);
    }
  }

  /** A variable is listed exactly when it is required and unset or empty. */
  lemma {:induction false} MissingMembers(vars: seq<string>, env: map<string, string>)
    ensures forall v :: v in Missing(vars, env) <==> v in vars && Getenv(env, v) == ""
  {
    if vars != [] {
      var n := |vars| - 1;
      MissingMembers(vars[..n], env);
      assert vars == vars[..n] + [vars[n]];
    }
  }

  /**
   * `checkEnv` after loading the `.env` file into `env`: the loop appends each required
   * variable that is unset or empty, and there is an error exactly when one is missing.
   */
  method CheckEnv(env: map<string, string>) returns (missingVars: seq<string>, failed: bool)
    ensures missingVars == Missing(RequiredEnvVars, env)
    ensures failed <==> missingVars != []
  {
    var requiredEnvVars := RequiredEnvVars;
    missingVars := [];
    for i := 0 to |requiredEnvVars|
      invariant missingVars == Missing(requiredEnvVars[..i], env)
    {
      var envVar := requiredEnvVars[i];
      assert requiredEnvVars[..i + 1][..i] == requiredEnvVars[..i];
      if Getenv(env, envVar) == "" {
        missingVars := missingVars + [envVar];
      }
    }
    assert requiredEnvVars[..|requiredEnvVars|] == requiredEnvVars;
    failed := |missingVars| > 0;
  }

  /** When every variable is unset, all of them are missing, in their order. */
  lemma {:induction false} MissingAllUnset(vars: seq<string>, env: map<string, string>)
    requires forall k :: 0 <= k < |vars| ==> Getenv(env, vars[k]) == ""
    ensures Missing(vars, env) == vars
  {
    if vars != [] {
      var n := |vars| - 1;
      MissingAllUnset(vars[..n], env);
      assert vars == vars[..n] + [vars[n]];
    }
  }

  /** With every required variable set nothing is missing; with none set all are, in order. */
  lemma CheckEnvExtremes(env: map<string, string>)
    ensures (forall v :: v in RequiredEnvVars ==> Getenv(env, v) != "") ==> Missing(RequiredEnvVars, env) == []
    ensures Missing(RequiredEnvVars, map[]) == RequiredEnvVars
  {
    MissingMembers(RequiredEnvVars, env);
    var missing := Missing(RequiredEnvVars, env);
    if missing != [] {
      assert missing[0] in missing;
    }
    MissingAllUnset(RequiredEnvVars, map[]);
  }

  /** What the `/` handler does for a path. */
  datatype Serve = StaticFile | NotFound | IndexHtml

  predicate HasPrefix(s: string, prefix: string)
  {
    prefix <= s
  }

  predicate HasSuffix(s: string, suffix: string)
  {
    |suffix| <= |s| && s[|s| - |suffix|..] == suffix
  }

  /** Paths that name build files: a missing one is a 404 rather than the app. */
  predicate NamesBuildFile(path: string)
  {
    HasPrefix(path, "/static/") || HasSuffix(path, ".ico") || HasSuffix(path, ".json")
  }

  /** The `/` handler, given whether the build directory holds a file at the path. */
  function Fallback(path: string, fileExists: bool): Serve
  {
    if fileExists then StaticFile
    else if NamesBuildFile(path) then NotFound
    else IndexHtml
  }

  /**
   * An existing file is always served; the app is served only for a path that names no
   * existing file and no build file; a missing asset is never answered with the app.
   */
  lemma FallbackRule(path: string, fileExists: bool)
    ensures Fallback(path, fileExists) == StaticFile <==> fileExists
    ensures Fallback(path, fileExists) == IndexHtml <==> !fileExists && !NamesBuildFile(path)
    ensures !fileExists && HasPrefix(path, "/static/") ==> Fallback(path, fileExists) == NotFound
  {
  }

  lemma FallbackExamples()
    ensures Fallback("/static/js/main.js", false) == NotFound
    ensures Fallback("/favicon.ico", false) == NotFound
    ensures Fallback("/manifest.json", false) == NotFound
    ensures Fallback("/playlists", false) == IndexHtml
    ensures Fallback("/favicon.ico", true) == StaticFile
    ensures Fallback("/main.js", false) == IndexHtml
  {
    assert !HasSuffix("/playlists", ".ico");
    assert !HasSuffix("/playlists", ".json");
    assert "/playlists"[1] != "/static/"[1];
    assert !HasSuffix("/main.js", ".ico");
    assert !HasSuffix("/main.js", ".json");
    assert "/main.js"[1] != "/static/"[1];
  }
}
