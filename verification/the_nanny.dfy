/**
  The listener behind the "Load" button: it trims the text of the URL
  field, checks it against the GitHub repository pattern and either reports
  an error or starts loading. The calls it makes on the blackboard are
  returned as a list of effects, in the order they are made.
*/
module TheNanny {
  import opened JavaText
  import GitHubHandler

  // ---------------------------------------------------------------------
  // The GITHUB_URL pattern
  // ---------------------------------------------------------------------

  /**
    ASCII case folding, the only folding a CASE_INSENSITIVE pattern does
    when UNICODE_CASE is not set.
  */
  function FoldAscii(c: char): char {
    if 'A' <= c <= 'Z' then (c as int + 32) as char else c
  }

  /** `s` spells the lower-case literal `lower`, letters in either case. */
  predicate SpelledIgnoringCase(s: string, lower: string) {
    |s| == |lower| && forall k | 0 <= k < |s| :: FoldAscii(s[k]) == lower[k]
  }

  const HTTP_HEAD := "http://github.com/"
  const HTTPS_HEAD := "https://github.com/"

  /** `https?://github\.com/`, case-insensitively. */
  predicate IsHead(h: string) {
    SpelledIgnoringCase(h, HTTP_HEAD) || SpelledIgnoringCase(h, HTTPS_HEAD)
  }

  /** `[^/]+`: a non-empty run without "/" (line terminators included). */
  predicate IsSegment(x: string) {
    x != [] && '/' !in x
  }

  /** `(/.*)?`: nothing, or "/" followed by characters a `.` accepts. */
  predicate IsTail(t: string) {
    t == [] || (t[0] == '/' && forall k | 0 <= k < |t| :: !IsLineTerminator(t[k]))
  }

  /** The four pieces a matching URL consists of. */
  datatype UrlParts = UrlParts(head: string, owner: string, repo: string, tail: string)

  predicate WellFormed(p: UrlParts) {
    IsHead(p.head) && IsSegment(p.owner) && IsSegment(p.repo) && IsTail(p.tail)
  }

  function Render(p: UrlParts): string {
    p.head + p.owner + "/" + p.repo + p.tail
  }

  /** The strings the whole pattern matches: `^https?://github\.com/[^/]+/[^/]+(/.*)?$`. */
  ghost predicate Accepted(url: string) {
    exists p :: WellFormed(p) && Render(p) == url
  }

  /**
    `GITHUB_URL.matcher(url).matches()`, read as a scanner: the optional "s"
    decides the length of the head, the owner runs to the next "/", the repo
    runs to the following "/" or the end, and the rest is the tail.
  */
  function MatchGitHubUrl(s: string): (r: Option<UrlParts>)
    ensures r.Some? ==> WellFormed(r.value) && Render(r.value) == s
  {
    match MatchHead(s)
    case None => None
    case Some(n) =>
      match MatchPath(s[n..])
      case None => None
      case Some((owner, repo, tail)) =>
        var p := UrlParts(s[..n], owner, repo, tail);
        RenderAfterHead(p);
        assert s == s[..n] + s[n..];
        Some(p)
  }

  /** `^https?://github\.com/`: the length of the head when the URL starts with one. */
  function MatchHead(s: string): (r: Option<nat>)
    ensures r.Some? ==> r.value <= |s| && IsHead(s[..r.value])
  {
    var n := HeadLength(s);
    if |s| < n || !IsHead(s[..n]) then None else Some(n)
  }

  lemma RenderAfterHead(p: UrlParts)
    ensures Render(p) == p.head + (p.owner + "/" + p.repo + p.tail)
  {
  }

  /** `https?`: the head is one longer when an "s" follows "http". */
  function HeadLength(s: string): nat {
    if |s| > 4 && FoldAscii(s[4]) == 's' then |HTTPS_HEAD| else |HTTP_HEAD|
  }

  /** `[^/]+/[^/]+(/.*)?` on what follows the head: the owner, the repository and the tail. */
  function MatchPath(rest: string): (r: Option<(string, string, string)>)
    ensures r.Some? ==> IsSegment(r.value.0) && IsSegment(r.value.1) && IsTail(r.value.2)
    ensures r.Some? ==> rest == r.value.0 + "/" + r.value.1 + r.value.2
  {
    var i := IndexOfChar(rest, '/', 0);
    if i <= 0 then None
    else match MatchRepo(rest[i + 1..])
      case None => None
      case Some((repo, tail)) =>
        assert rest == rest[..i] + "/" + rest[i + 1..];
        Some((rest[..i], repo, tail))
  }

  /** `[^/]+(/.*)?` after the owner's "/": the repository runs to the next "/" or the end. */
  function MatchRepo(after: string): (r: Option<(string, string)>)
    ensures r.Some? ==> IsSegment(r.value.0) && IsTail(r.value.1) && after == r.value.0 + r.value.1
  {
    var j := FirstOrEnd(after, '/', 0);
    if j == 0 || !IsTail(after[j..]) then None
    else Some((after[..j], after[j..]))
  }

  /** A well-formed head is read back whole, with the rest of the URL after it. */
  lemma HeadOfRender(p: UrlParts)
    requires WellFormed(p)
    ensures var s := Render(p);
      HeadLength(s) == |p.head| <= |s| && s[..|p.head|] == p.head
      && s[|p.head|..] == p.owner + "/" + p.repo + p.tail
  {
    var s := Render(p);
    assert s == p.head + (p.owner + "/" + p.repo + p.tail);
    assert s[4] == p.head[4];
    if SpelledIgnoringCase(p.head, HTTPS_HEAD) {
      assert FoldAscii(s[4]) == 's';
    } else {
      assert FoldAscii(s[4]) == ':';
    }
  }

  lemma RepoComplete(repo: string, tail: string)
    requires IsSegment(repo) && IsTail(tail)
    ensures MatchRepo(repo + tail) == Some((repo, tail))
  {
    var after := repo + tail;
    assert forall k | 0 <= k < |repo| :: after[k] == repo[k];
    assert tail != [] ==> after[|repo|] == '/';
    assert FirstOrEnd(after, '/', 0) == |repo|;
    assert after[..|repo|] == repo && after[|repo|..] == tail;
  }

  lemma PathComplete(owner: string, repo: string, tail: string)
    requires IsSegment(owner) && IsSegment(repo) && IsTail(tail)
    ensures MatchPath(owner + "/" + repo + tail) == Some((owner, repo, tail))
  {
    var rest := owner + "/" + repo + tail;
    assert rest == owner + "/" + (repo + tail);
    assert rest[|owner|] == '/';
    assert forall k | 0 <= k < |owner| :: rest[k] == owner[k];
    assert IndexOfChar(rest, '/', 0) == |owner|;
    assert rest[..|owner|] == owner && rest[|owner| + 1..] == repo + tail;
    RepoComplete(repo, tail);
  }

  /** Every well-formed URL is matched, and read back into the same pieces. */
  lemma MatchComplete(p: UrlParts)
    requires WellFormed(p)
    ensures MatchGitHubUrl(Render(p)) == Some(p)
  {
    HeadOfRender(p);
    PathComplete(p.owner, p.repo, p.tail);
  }

  /** The scanner decides exactly the strings the pattern describes. */
  lemma AcceptedIffMatches(url: string)
    ensures Accepted(url) <==> MatchGitHubUrl(url).Some?
  {
    if Accepted(url) {
      var p :| WellFormed(p) && Render(p) == url;
      MatchComplete(p);
    }
  }

  /** A match is unique: the pieces are determined by the URL. */
  lemma MatchIffPieces(url: string, p: UrlParts)
    ensures MatchGitHubUrl(url) == Some(p) <==> WellFormed(p) && Render(p) == url
  {
    if WellFormed(p) && Render(p) == url {
      MatchComplete(p);
    }
  }

  // ---------------------------------------------------------------------
  // actionPerformed
  // ---------------------------------------------------------------------

  /** The calls `actionPerformed` makes on the blackboard. */
  datatype Effect =
    | ReportError(message: string)
    | SetLoading(on: bool)
    | SetStatus(message: string)
    | LoadFromUrl(url: string)

  const EMPTY_URL := "Enter a GitHub repository URL before loading."
  const INVALID_URL := "Provide a valid GitHub repository URL (https://github.com/owner/repo)."

  /**
    `actionPerformed` on the text of the URL field: an empty field and a
    URL the pattern refuses each report one error and stop; an accepted URL
    switches loading on, shows a status line and then starts the load.
  */
  function ActionPerformed(field: string): (effects: seq<Effect>)
    ensures Trim(field) == [] ==> effects == [ReportError(EMPTY_URL)]
    ensures Trim(field) != [] && !Accepted(Trim(field)) ==> effects == [ReportError(INVALID_URL)]
    ensures Accepted(Trim(field)) ==>
      effects == [SetLoading(true), SetStatus("Loading " + Trim(field) + "..."), LoadFromUrl(Trim(field))]
  {
    var url := Trim(field);
    AcceptedIffMatches(url);
    if url == [] then [ReportError(EMPTY_URL)]
    else if MatchGitHubUrl(url).None? then [ReportError(INVALID_URL)]
    else [SetLoading(true), SetStatus("Loading " + url + "..."), LoadFromUrl(url)]
  }

  // ---------------------------------------------------------------------
  // Agreement with RepoRef.fromUrl
  // ---------------------------------------------------------------------

  lemma SplitAllAfterPiece(a: string, rest: string)
    requires '/' !in a
    ensures SplitAll(a + "/" + rest, '/') == [a] + SplitAll(rest, '/')
  {
    var s := a + "/" + rest;
    assert s[|a|] == '/';
    assert forall k | 0 <= k < |a| :: s[k] == a[k];
    assert IndexOfChar(s, '/', 0) == |a|;
    assert s[..|a|] == a && s[|a| + 1..] == rest;
  }

  lemma SplitAllFirstPiece(a: string, t: string)
    requires '/' !in a
    requires t == [] || t[0] == '/'
    ensures SplitAll(a + t, '/')[0] == a
  {
    var s := a + t;
    assert forall k | 0 <= k < |a| :: s[k] == a[k];
    if t == [] {
      assert s == a;
      assert IndexOfChar(s, '/', 0) == -1;
    } else {
      assert s[|a|] == '/';
      assert IndexOfChar(s, '/', 0) == |a|;
      assert s[..|a|] == a;
    }
  }

  /** Splitting "owner/repo" followed by nothing or by "/…" starts with the owner and the repository. */
  lemma OwnerAndRepoOfPath(owner: string, repo: string, t: string)
    requires IsSegment(owner) && IsSegment(repo)
    requires t == [] || t[0] == '/'
    ensures |JavaSplit(owner + "/" + (repo + t), '/')| >= 2
    ensures JavaSplit(owner + "/" + (repo + t), '/')[0] == owner
    ensures JavaSplit(owner + "/" + (repo + t), '/')[1] == repo
  {
    var path := owner + "/" + (repo + t);
    SplitAllAfterPiece(owner, repo + t);
    SplitAllFirstPiece(repo, t);
    var pieces := SplitAll(path, '/');
    assert pieces[0] == owner && pieces[1] == repo;
    assert path[|owner|] == '/';
    assert JavaSplit(path, '/') == DropTrailingEmpty(pieces);
  }

  /** `fromUrl` keeps what follows the host, less one trailing "/". */
  lemma RepoPathAfterHost(scheme: string, path: string)
    requires 'g' !in scheme && path != []
    ensures GitHubHandler.RepoPath(scheme + GitHubHandler.HOST + path)
      == if EndsWith(path, "/") then path[..|path| - 1] else path
  {
    var cut := if EndsWith(path, "/") then path[..|path| - 1] else path;
    var url := scheme + GitHubHandler.HOST + path;
    var u := scheme + GitHubHandler.HOST + cut;
    DropSlashOfAppend(scheme + GitHubHandler.HOST, path);
    assert (if EndsWith(url, "/") then url[..|url| - 1] else url) == u;
    GitHubHandler.HostAfterScheme(scheme, cut);
    GitHubHandler.RepoPathAt(url, u, |scheme|);
  }

  /** Whether a text ends in "/" is decided by its last non-empty part. */
  lemma DropSlashOfAppend(a: string, path: string)
    requires path != []
    ensures var url := a + path;
      (if EndsWith(url, "/") then url[..|url| - 1] else url)
      == a + (if EndsWith(path, "/") then path[..|path| - 1] else path)
  {
    var url := a + path;
    assert url[|url| - 1] == path[|path| - 1];
    assert EndsWith(url, "/") <==> url[|url| - 1] == '/';
    assert EndsWith(path, "/") <==> path[|path| - 1] == '/';
    if EndsWith(path, "/") {
      DropLastOfAppend(a, path);
    }
  }

  /** The tail less one trailing "/", as `fromUrl` drops it. */
  function StripSlash(t: string): string {
    if t != [] && t[|t| - 1] == '/' then t[..|t| - 1] else t
  }

  lemma DropLastOfAppend(a: string, b: string)
    requires b != []
    ensures (a + b)[..|a + b| - 1] == a + b[..|b| - 1]
  {
  }

  /** Dropping the trailing "/" of "owner/repo…" only ever shortens the tail. */
  lemma StripAfterRepo(owner: string, repo: string, tail: string)
    requires IsSegment(repo)
    ensures var full := owner + "/" + (repo + tail);
      (if EndsWith(full, "/") then full[..|full| - 1] else full) == owner + "/" + (repo + StripSlash(tail))
  {
    var rt := repo + tail;
    var full := owner + "/" + rt;
    var last := if tail == [] then repo[|repo| - 1] else tail[|tail| - 1];
    assert full[|full| - 1] == last;
    assert repo[|repo| - 1] in repo;
    if tail != [] && tail[|tail| - 1] == '/' {
      DropLastOfAppend(repo, tail);
      DropLastOfAppend(owner + "/", rt);
    }
  }

  /** A head ends in the host, so it is written in lower case when its last eleven characters are `github.com/`. */
  predicate LowerCaseHost(h: string) {
    |h| >= |GitHubHandler.HOST| && h[|h| - |GitHubHandler.HOST|..] == GitHubHandler.HOST
  }

  /** The scheme part of a head, `http://` or `https://` in any case, holds no lower-case `g`. */
  lemma SchemeHasNoG(h: string)
    requires IsHead(h)
    ensures |h| >= |GitHubHandler.HOST| && 'g' !in h[..|h| - |GitHubHandler.HOST|]
  {
    var c := |h| - |GitHubHandler.HOST|;
    forall k | 0 <= k < c ensures h[k] != 'g' {
      if SpelledIgnoringCase(h, HTTPS_HEAD) {
        assert FoldAscii(h[k]) == HTTPS_HEAD[k] != 'g';
      } else {
        assert FoldAscii(h[k]) == HTTP_HEAD[k] != 'g';
      }
    }
  }

  lemma LowerCaseHostPath(p: UrlParts)
    requires WellFormed(p) && LowerCaseHost(p.head)
    ensures GitHubHandler.RepoPath(Render(p)) == p.owner + "/" + (p.repo + StripSlash(p.tail))
  {
    var scheme := p.head[..|p.head| - |GitHubHandler.HOST|];
    SchemeHasNoG(p.head);
    assert p.head == scheme + GitHubHandler.HOST;
    var full := p.owner + "/" + (p.repo + p.tail);
    RenderAfterHead(p);
    assert p.owner + "/" + p.repo + p.tail == full;
    RepoPathAfterHost(scheme, full);
    StripAfterRepo(p.owner, p.repo, p.tail);
  }

  /**
    For an accepted URL whose host is written in lower case (the scheme in
    any case), the owner and the repository `RepoRef.fromUrl` reads are the
    ones the pattern matched, so both are non-empty.
  */
  lemma LowerCaseHostNamesRepository(p: UrlParts)
    requires WellFormed(p)
    requires LowerCaseHost(p.head)
    ensures GitHubHandler.RepoRefOf(Render(p)).owner == p.owner
    ensures GitHubHandler.RepoRefOf(Render(p)).repo == p.repo
  {
    LowerCaseHostPath(p);
    var t := StripSlash(p.tail);
    assert t == [] || t[0] == '/';
    OwnerAndRepoOfPath(p.owner, p.repo, t);
  }

  /** `HTTPS://github.com/` has an upper-case scheme and a lower-case host. */
  lemma UpperCaseSchemeHead()
    ensures IsHead("HTTPS://github.com/") && LowerCaseHost("HTTPS://github.com/")
  {
    assert SpelledIgnoringCase("HTTPS://github.com/", HTTPS_HEAD);
    assert "HTTPS://github.com/"[8..] == GitHubHandler.HOST;
  }

  /** The scheme of a head, `http:` or `https:`, holds no "/" and is followed by "//". */
  lemma SchemeSlashes(h: string)
    requires IsHead(h)
    ensures var c := |h| - 13;
      0 < c && c + 1 < |h| && h[c] == '/' && h[c + 1] == '/' && forall k | 0 <= k < c :: h[k] != '/'
  {
    var c := |h| - 13;
    if SpelledIgnoringCase(h, HTTPS_HEAD) {
      assert forall k | 0 <= k < c :: HTTPS_HEAD[k] != '/';
      assert FoldAscii(h[c]) == '/' && FoldAscii(h[c + 1]) == '/';
    } else {
      assert forall k | 0 <= k < c :: HTTP_HEAD[k] != '/';
      assert FoldAscii(h[c]) == '/' && FoldAscii(h[c + 1]) == '/';
    }
  }

  lemma MixedCaseHostPath(p: UrlParts)
    requires WellFormed(p)
    requires !Contains(Render(p), GitHubHandler.HOST)
    ensures var u := GitHubHandler.RepoPath(Render(p));
      var c := |p.head| - 13;
      c + 1 < |u| && u[c] == '/' && u[c + 1] == '/' && u[..c] == p.head[..c]
      && forall k | 0 <= k < c :: u[k] != '/'
  {
    var url := Render(p);
    var h := p.head;
    RenderAfterHead(p);
    SchemeSlashes(h);
    var u := if EndsWith(url, "/") then url[..|url| - 1] else url;
    assert u == url[..|u|];
    assert |u| >= |h|;
    assert forall k | 0 <= k < |h| :: u[k] == h[k];
    ContainedInPrefix(url, |u|, GitHubHandler.HOST);
    GitHubHandler.RepoPathNoHost(url, u);
    assert u[..|h| - 13] == h[..|h| - 13];
  }

  /**
    The pattern accepts a host in any case, but `RepoRef.fromUrl` looks for
    "github.com/" in lower case. When the URL holds no lower-case
    "github.com/" at all, the scheme and its colon are read as the owner and
    the empty piece between the two slashes as the repository.
  */
  lemma MixedCaseHostIsMisread(p: UrlParts)
    requires WellFormed(p)
    requires !Contains(Render(p), GitHubHandler.HOST)
    ensures GitHubHandler.RepoRefOf(Render(p)).owner == p.head[..|p.head| - 13]
    ensures GitHubHandler.RepoRefOf(Render(p)).repo == ""
  {
    MixedCaseHostPath(p);
    SchemeFirstPiece(GitHubHandler.RepoPath(Render(p)), |p.head| - 13);
  }

  /** A text that starts with a slash-free piece and then "//" splits into that piece and an empty one. */
  lemma SchemeFirstPiece(u: string, c: nat)
    requires 0 < c && c + 1 < |u| && u[c] == '/' && u[c + 1] == '/'
    requires forall k | 0 <= k < c :: u[k] != '/'
    ensures |JavaSplit(u, '/')| >= 1 && JavaSplit(u, '/')[0] == u[..c]
    ensures |JavaSplit(u, '/')| >= 2 ==> JavaSplit(u, '/')[1] == ""
  {
    assert IndexOfChar(u, '/', 0) == c;
    var rest := u[c + 1..];
    assert rest[0] == '/';
    assert IndexOfChar(rest, '/', 0) == 0;
    var pieces := SplitAll(u, '/');
    assert pieces == [u[..c]] + SplitAll(rest, '/');
    assert SplitAll(rest, '/')[0] == rest[..0];
    assert pieces[0] == u[..c] && pieces[1] == "";
    assert u[..c] != [];
  }

  /** The URL of a repository whose host is written "GitHub.com" holds no lower-case host. */
  lemma MixedCaseHostExample()
    ensures WellFormed(UrlParts("https://GitHub.com/", "o", "r", ""))
    ensures !Contains(Render(UrlParts("https://GitHub.com/", "o", "r", "")), GitHubHandler.HOST)
  {
    MixedCaseHeadAccepted();
    assert Render(UrlParts("https://GitHub.com/", "o", "r", "")) == "https://GitHub.com/o/r";
    MixedCaseUrlHasNoHost();
  }

  lemma MixedCaseHeadAccepted()
    ensures IsHead("https://GitHub.com/")
  {
    var h := "https://GitHub.com/";
    assert forall k | 0 <= k < |h| :: FoldAscii(h[k]) == HTTPS_HEAD[k];
  }

  lemma MixedCaseUrlHasNoHost()
    ensures !Contains("https://GitHub.com/o/r", GitHubHandler.HOST)
  {
    assert 'g' !in "https://GitHub.com/o/r";
    NotContainedWithoutHead("https://GitHub.com/o/r", GitHubHandler.HOST);
  }
}
