/** The launch side of the client (pruebaVPS.py, `connect_wsl`,
    `connect_gitbash`, `connect_browser`): the session id taken from an sshx
    URL, the command lines built from it, and the search for Git Bash. */
module Launch {
  import opened Wrappers
  import opened Strings

  /** The marker in front of the session id in an sshx URL. */
  const SessionMarker: string := "/s/"

  /** `url.split('/s/')[-1].split('#')[0]`: the last piece of a left-to-right
      split on `/s/`, cut before its first `#`. */
  function SessionId(url: string): (r: string)
    ensures r == BeforeFirst(Split(url, SessionMarker)[|Split(url, SessionMarker)| - 1], '#')
  {
    var pieces := Split(url, SessionMarker);
    SplitCharFirst(pieces[|pieces| - 1], '#');
    Split(pieces[|pieces| - 1], "#")[0]
  }

  /** The session id never contains `/s/` or `#`, whatever the URL. */
  lemma SessionIdAvoidsMarkers(url: string)
    ensures !Contains(SessionId(url), SessionMarker) && '#' !in SessionId(url)
  {
    var pieces := Split(url, SessionMarker);
    var last := pieces[|pieces| - 1];
    SplitPiecesAvoidSep(url, SessionMarker);
    PrefixAvoids(BeforeFirst(last, '#'), last, SessionMarker);
  }

  /** A prefix of a string that does not contain `sep` does not contain it either. */
  lemma PrefixAvoids(p: string, s: string, sep: string)
    requires p <= s && !Contains(s, sep)
    ensures !Contains(p, sep)
  {
    forall i | 0 <= i <= |p| && OccursAt(p, sep, i) ensures OccursAt(s, sep, i) {
      assert s[i..i + |sep|] == p[i..i + |sep|];
    }
  }

  /** The id extracted from the example URL documented in `connect_wsl`,
      `https://sshx.io/s/WlfhyC1F1t#kVTAZ6tyn1dY3G` (written below in its parts),
      is the token between `/s/` and `#`. */
  lemma SessionIdExample()
    ensures SessionId("https://" + "sshx.io" + "/s/" + "WlfhyC1F1t" + "#" + "kVTAZ6tyn1dY3G") == "WlfhyC1F1t"
  {
    var token, secret := "WlfhyC1F1t", "kVTAZ6tyn1dY3G";
    NotContainsByLead(token + "#" + secret, SessionMarker);
    SessionIdOfEndpoint("sshx.io", token, secret);
  }

  /** For every URL `https://<domain>/s/<token>#<secret>` whose domain has no
      `/` (and is not the single letter `s`), whose token has no `#`, and whose
      tail after the marker holds no further `/s/`, the session id is the token. */
  lemma SessionIdOfEndpoint(domain: string, token: string, secret: string)
    requires '/' !in domain && domain != "s"
    requires '#' !in token && !Contains(token + "#" + secret, SessionMarker)
    ensures SessionId("https://" + domain + "/s/" + token + "#" + secret) == token
  {
    var rest := token + "#" + secret;
    var afterSlashes := domain + SessionMarker + rest;
    var afterScheme := "//" + afterSlashes;
    var url := "https:" + afterScheme;
    assert url == "https://" + domain + "/s/" + token + "#" + secret;
    assert Split(url, SessionMarker) == ["https:" + Split(afterScheme, SessionMarker)[0], rest] by {
      assert afterScheme == "//" + domain + SessionMarker + rest;
      SlashesSplit(domain, rest);
      assert Split(afterScheme, SessionMarker)[1..] == [rest];
      SplitNoLead("https:", afterScheme, SessionMarker);
    }
    assert Split(rest, "#")[0] == token by {
      SplitOnce(token, secret, "#");
    }
  }

  /** For every URL `https://<domain>/s/<rest>` (domain as above) whose text
      after the marker holds no further `/s/`, the session id is that text up
      to its first `#`. */
  lemma SessionIdAfterMarker(domain: string, rest: string)
    requires '/' !in domain && domain != "s" && !Contains(rest, SessionMarker)
    ensures SessionId("https://" + domain + "/s/" + rest) == BeforeFirst(rest, '#')
  {
    var afterScheme := "//" + domain + SessionMarker + rest;
    var url := "https:" + afterScheme;
    assert url == "https://" + domain + "/s/" + rest;
    assert Split(url, SessionMarker) == ["https:" + Split(afterScheme, SessionMarker)[0], rest] by {
      SlashesSplit(domain, rest);
      assert Split(afterScheme, SessionMarker)[1..] == [rest];
      SplitNoLead("https:", afterScheme, SessionMarker);
    }
  }

  /** An endpoint without a `#<secret>` part: the id is everything after `/s/`. */
  lemma SessionIdOfEndpointNoSecret(domain: string, token: string)
    requires '/' !in domain && domain != "s"
    requires '#' !in token && !Contains(token, SessionMarker)
    ensures SessionId("https://" + domain + "/s/" + token) == token
  {
    SessionIdAfterMarker(domain, token);
  }

  /** The two slashes after the scheme start no marker, so the pieces after
      the first are those of the text after the slashes. */
  lemma SlashesSplit(domain: string, rest: string)
    requires '/' !in domain && domain != "s" && !Contains(rest, SessionMarker)
    ensures |Split("//" + domain + SessionMarker + rest, SessionMarker)| == 2
    ensures Split("//" + domain + SessionMarker + rest, SessionMarker)[1] == rest
  {
    var afterSlashes := domain + SessionMarker + rest;
    var afterFirst := "/" + afterSlashes;
    var s := "/" + afterFirst;
    assert s == "//" + domain + SessionMarker + rest;
    assert Split(afterSlashes, SessionMarker) == [domain, rest] by {
      SplitOnce(domain, rest, SessionMarker);
      SplitSingle(rest, SessionMarker);
    }
    assert afterFirst[..3] != SessionMarker by {
      var w := afterFirst[..3];
      if domain == "" {
        assert w[1] == '/';
      } else if |domain| == 1 {
        assert domain == [domain[0]] && w[1] == domain[0];
      } else {
        assert w[2] == domain[1];
      }
    }
    assert afterFirst[1..] == afterSlashes;
    SplitStep(afterFirst, SessionMarker);
    assert s[..3] != SessionMarker by { assert s[1] == '/'; }
    assert s[1..] == afterFirst;
    SplitStep(s, SessionMarker);
  }

  /** The split runs left to right and never cuts at overlapping matches: in
      `x/s/s/y` the first `/s/` is consumed, so the id is `s/y`, not `y`. */
  lemma SessionIdLeftmost()
    ensures SessionId("x/s/s/y") == "s/y"
  {
    var tail := "s/y";
    assert "x/s/s/y" == "x" + SessionMarker + tail;
    assert Split(tail, SessionMarker) == [tail] by {
      assert tail[..3] == tail && tail[0] != SessionMarker[0] && tail[1..] == "/y";
      assert Split("/y", SessionMarker) == ["/y"];
      assert [tail[0]] + "/y" == tail;
    }
    SplitOnce("x", tail, SessionMarker);
    assert Split("x/s/s/y", SessionMarker) == ["x", tail];
    assert Split(tail, "#") == [tail] by {
      NotContainsByLead(tail, "#");
      SplitSingle(tail, "#");
    }
  }

  /** A host named `s` is cut into: in `https://s/s/<rest>` the first `/s/`
      is the one that starts at the scheme's second slash, so the id keeps the
      host's `s/` in front (`https://s/s/tok#x` gives `s/tok`). */
  lemma SessionIdHostS(rest: string)
    requires !Contains("s/" + rest, SessionMarker)
    ensures SessionId("https:/" + SessionMarker + "s/" + rest) == BeforeFirst("s/" + rest, '#')
  {
    var tail := "s/" + rest;
    var afterScheme := "/" + SessionMarker + tail;
    assert "https:/" + SessionMarker + "s/" + rest == "https:" + afterScheme;
    assert Split(afterScheme, SessionMarker) == ["/", tail] by {
      var inner := SessionMarker + tail;
      assert afterScheme[1..] == inner;
      assert afterScheme[..3] != SessionMarker by { assert afterScheme[1] == '/'; }
      SplitAtSep(tail, SessionMarker);
      SplitSingle(tail, SessionMarker);
      assert Split(inner, SessionMarker) == ["", tail];
      assert Split(afterScheme, SessionMarker)
          == [[afterScheme[0]] + Split(inner, SessionMarker)[0]] + Split(inner, SessionMarker)[1..];
      assert [afterScheme[0]] + Split(inner, SessionMarker)[0] == "/";
    }
    SplitNoLead("https:", afterScheme, SessionMarker);
  }

  /** A URL without `/s/` is used whole up to its first `#`. */
  lemma SessionIdWithoutMarker(url: string)
    requires !Contains(url, SessionMarker)
    ensures SessionId(url) == BeforeFirst(url, '#')
    ensures '#' !in url ==> SessionId(url) == url
  {
    SplitSingle(url, SessionMarker);
    SplitCharFirst(url, '#');
  }

  /** `f'wsl sshx join {session_id}'`: whenever the id holds no space, the
      command line is exactly four words, the last one the session id. */
  function WslCommand(id: string): (r: string)
    ensures ' ' !in id ==> Split(r, " ") == ["wsl", "sshx", "join", id]
  {
    var r := "wsl sshx join " + id;
    WslWords(id, r);
    r
  }

  /** The words of the WSL command line, for an id without spaces. */
  lemma WslWords(id: string, command: string)
    requires command == "wsl sshx join " + id
    ensures ' ' !in id ==> Split(command, " ") == ["wsl", "sshx", "join", id]
  {
    if ' ' !in id {
      var words := ["wsl", "sshx", "join", id];
      assert Join(words, " ") == command by {
        assert Join(words[3..], " ") == id;
        assert Join(words[2..], " ") == "join" + " " + id;
        assert Join(words[1..], " ") == "sshx" + " " + ("join" + " " + id);
      }
      JoinSplit(words, " ");
    }
  }

  /** `f'"{git_bash}" -c "sshx join {session_id}"'`: when neither the shell
      path nor the id holds a double quote, the path is quoted as one token
      and `sshx join <id>` is passed intact as the single argument of `-c`. */
  function GitBashCommand(bash: string, id: string): (r: string)
    ensures '"' !in bash && '"' !in id ==> Split(r, "\"") == ["", bash, " -c ", "sshx join " + id, ""]
  {
    var r := "\"" + bash + "\"" + " -c " + "\"" + ("sshx join " + id) + "\"";
    GitBashFields(bash, id, r);
    r
  }

  /** The double-quote-separated fields of the Git Bash command line. */
  lemma GitBashFields(bash: string, id: string, command: string)
    requires command == "\"" + bash + "\"" + " -c " + "\"" + ("sshx join " + id) + "\""
    ensures '"' !in bash && '"' !in id ==> Split(command, "\"") == ["", bash, " -c ", "sshx join " + id, ""]
  {
    if '"' !in bash && '"' !in id {
      var q := "\"";
      var inner := "sshx join " + id;
      var fields := ["", bash, " -c ", inner, ""];
      assert Join(fields, q) == command by {
        assert Join(fields[4..], q) == "";
        assert Join(fields[3..], q) == inner + q;
        assert Join(fields[2..], q) == " -c " + q + (inner + q);
        assert Join(fields[1..], q) == bash + q + (" -c " + q + (inner + q));
      }
      assert forall k :: 0 <= k < |fields| ==> q[0] !in fields[k] by {
        assert '"' !in inner;
      }
      JoinSplit(fields, q);
    }
  }

  /** Where `connect_gitbash` looks for Git Bash, in this order. */
  const GitBashPaths: seq<string> := [
    @"C:\Program Files\Git\bin\bash.exe",
    @"C:\Program Files (x86)\Git\bin\bash.exe"
  ]

  /** The first of `paths` that exists, as a reference definition. */
  function FirstExisting(paths: seq<string>, pathExists: string -> bool): (r: Option<string>)
    ensures r.None? <==> forall i :: 0 <= i < |paths| ==> !pathExists(paths[i])
    ensures r.Some? ==> exists i :: 0 <= i < |paths| && paths[i] == r.value && pathExists(paths[i])
                           && forall j :: 0 <= j < i ==> !pathExists(paths[j])
  {
    if paths == [] then None
    else if pathExists(paths[0]) then Some(paths[0])
    else
      var r := FirstExisting(paths[1..], pathExists);
      assert forall i :: 1 <= i < |paths| ==> paths[i] == paths[1..][i - 1];
      r
  }

  /** The probe loop of `connect_gitbash`: walk the paths in order and keep the
      first one `os.path.exists` (here `pathExists`) accepts. */
  method FindGitBash(paths: seq<string>, pathExists: string -> bool) returns (found: Option<string>)
    ensures found == FirstExisting(paths, pathExists)
  {
    found := None;
    for i := 0 to |paths|
      invariant FirstExisting(paths[i..], pathExists) == FirstExisting(paths, pathExists)
    {
      assert paths[i..][1..] == paths[i + 1..];
      if pathExists(paths[i]) {
        found := Some(paths[i]);
        break;
      }
    }
    if found.None? {
      assert paths[|paths|..] == [];
    }
  }

  /** What a connection attempt does: run a shell command line, open a
      browser tab, or report that Git Bash is missing (no command is run). */
  datatype Action = Run(command: string) | OpenInBrowser(url: string) | GitBashNotFound | InvalidMethod

  /** The outcome of `connect_gitbash(url)` when `pathExists` says which files exist. */
  function GitBashAction(url: string, pathExists: string -> bool): (r: Action)
    ensures r.Run? || r.GitBashNotFound?
    ensures r.GitBashNotFound? <==> forall i :: 0 <= i < |GitBashPaths| ==> !pathExists(GitBashPaths[i])
  {
    match FirstExisting(GitBashPaths, pathExists)
    case None => GitBashNotFound
    case Some(bash) => Run(GitBashCommand(bash, SessionId(url)))
  }

  /** `connect_gitbash`: probe for the shell; without one, nothing is built or run. */
  method ConnectGitBash(url: string, pathExists: string -> bool) returns (action: Action)
    ensures action == GitBashAction(url, pathExists)
    ensures action == GitBashNotFound <==> forall i :: 0 <= i < |GitBashPaths| ==> !pathExists(GitBashPaths[i])
    ensures action.Run? ==>
              (exists i :: 0 <= i < |GitBashPaths| && pathExists(GitBashPaths[i])
                 && (forall j :: 0 <= j < i ==> !pathExists(GitBashPaths[j]))
                 && action.command == GitBashCommand(GitBashPaths[i], SessionId(url)))
  {
    var bash := FindGitBash(GitBashPaths, pathExists);
    if bash.None? {
      return GitBashNotFound;
    }
    action := Run(GitBashCommand(bash.value, SessionId(url)));
  }

  /** The connection method chosen in the menu: "1" WSL, "2" Git Bash,
      "3" the browser (which is given the whole URL, not the id). */
  function Dispatch(choice: string, url: string, pathExists: string -> bool): (r: Action)
    ensures choice == "1" ==> r == Run(WslCommand(SessionId(url)))
    ensures choice == "2" ==> r == GitBashAction(url, pathExists)
    ensures r.OpenInBrowser? <==> choice == "3"
    ensures r.OpenInBrowser? ==> r.url == url
    ensures r == InvalidMethod <==> choice != "1" && choice != "2" && choice != "3"
  {
    if choice == "1" then Run(WslCommand(SessionId(url)))
    else if choice == "2" then GitBashAction(url, pathExists)
    else if choice == "3" then OpenInBrowser(url)
    else InvalidMethod
  }

  /** The method switch of `interactive_menu` (lines 239-246 and 279-284). */
  method Connect(choice: string, url: string, pathExists: string -> bool) returns (action: Action)
    ensures action == Dispatch(choice, url, pathExists)
    ensures action.OpenInBrowser? ==> action.url == url
    ensures action.Run? ==> choice == "1" || choice == "2"
  {
    if choice == "1" {
      action := Run(WslCommand(SessionId(url)));
    } else if choice == "2" {
      action := ConnectGitBash(url, pathExists);
    } else if choice == "3" {
      action := OpenInBrowser(url);
    } else {
      action := InvalidMethod;
    }
  }
}
