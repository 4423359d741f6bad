/**
  The repository side of the loader: reading owner, repository, branch and
  directory out of a GitHub URL (`RepoRef.fromUrl`), and the small scanner
  that picks file paths out of the JSON the git-trees API answers with
  (`listFilesRecursive`).  The HTTP request is not modelled: the answer is a
  parameter, `None` standing for a null body.
*/
module GitHubHandler {
  import opened JavaText

  // ---------------------------------------------------------------------
  // RepoRef
  // ---------------------------------------------------------------------

  /** `RepoRef`: where in which repository to look. */
  datatype RepoRef = RepoRef(owner: string, repo: string, branch: string, prefix: string)

  /** The `RepoRef` constructor: a null directory prefix is stored as "". */
  function NewRepoRef(owner: string, repo: string, branch: string, prefix: Option<string>): (r: RepoRef)
    ensures r.owner == owner && r.repo == repo && r.branch == branch
    ensures prefix.None? ==> r.prefix == ""
    ensures prefix.Some? ==> r.prefix == prefix.value
  {
    RepoRef(owner, repo, branch, if prefix.None? then "" else prefix.value)
  }

  const HOST := "github.com/"
  const DEFAULT_BRANCH := "main"

  /**
    The text `fromUrl` splits: the URL without one trailing "/", and without
    everything up to and including the first "github.com/" when it has one.
  */
  function RepoPath(url: string): string {
    var u := if EndsWith(url, "/") then url[..|url| - 1] else url;
    var i := IndexOf(u, HOST, 0);
    if i >= 0 then u[i + |HOST|..] else u
  }

  /** `u.split("/")`. */
  function Segments(url: string): seq<string> {
    JavaSplit(RepoPath(url), '/')
  }

  /** The third segment says that a branch follows ("tree/…" or "blob/…"). */
  predicate NamesBranch(parts: seq<string>) {
    |parts| >= 3 && (parts[2] == "tree" || parts[2] == "blob")
  }

  /** What `fromUrl` returns; the method `FromUrl` is proved to compute it. */
  function RepoRefOf(url: string): RepoRef {
    RefOfSegments(Segments(url))
  }

  /** The reference the segments of a repository path name. */
  function RefOfSegments(parts: seq<string>): RepoRef {
    NewRepoRef(
      if |parts| > 0 then parts[0] else "",
      if |parts| > 1 then parts[1] else "",
      if NamesBranch(parts) && |parts| > 3 then parts[3] else DEFAULT_BRANCH,
      Some(if NamesBranch(parts) && |parts| > 4 then Join(parts[4..], "/") else ""))
  }

  /** `RepoRef.fromUrl`, with the `StringBuilder` loop that joins the directory segments. */
  method FromUrl(url: string) returns (ref: RepoRef)
    ensures ref == RepoRefOf(url)
  {
    var u := PathOfUrl(url);
    var parts := JavaSplit(u, '/');
    ref := RefFromSegments(parts);
  }

  /** The first steps of `fromUrl`: the trailing "/" dropped, then everything up to the host. */
  method PathOfUrl(url: string) returns (u: string)
    ensures u == RepoPath(url)
  {
    u := url;
    if EndsWith(u, "/") {
      u := u[..|u| - 1];
    }
    var i := IndexOf(u, HOST, 0);
    if i >= 0 {
      u := u[i + |HOST|..];
    }
  }

  /** The rest of `fromUrl`: owner, repository, branch and directory prefix read off the segments. */
  method RefFromSegments(parts: seq<string>) returns (ref: RepoRef)
    ensures ref == RefOfSegments(parts)
  {
    var owner := if |parts| > 0 then parts[0] else "";
    var repo := if |parts| > 1 then parts[1] else "";
    var branch := DEFAULT_BRANCH;
    var prefix := "";
    if |parts| >= 3 {
      if parts[2] == "tree" || parts[2] == "blob" {
        branch := if |parts| > 3 then parts[3] else DEFAULT_BRANCH;
        if |parts| > 4 {
          prefix := JoinDirectories(parts);
        }
      }
    }
    ref := NewRepoRef(owner, repo, branch, Some(prefix));
  }

  /** The `StringBuilder` loop of `fromUrl`: the segments from the fifth on, joined by "/". */
  method JoinDirectories(parts: seq<string>) returns (prefix: string)
    requires |parts| > 4
    ensures prefix == Join(parts[4..], "/")
  {
    var sb := "";
    var k := 4;
    while k < |parts|
      invariant 4 <= k <= |parts|
      invariant sb + Join(parts[k..], "/") == Join(parts[4..], "/")
    {
      var rest := parts[k + 1..];
      assert parts[k..][0] == parts[k] && parts[k..][1..] == rest;
      if k < |parts| - 1 {
        assert Join(parts[k..], "/") == parts[k] + "/" + Join(rest, "/");
      } else {
        assert Join(parts[k..], "/") == parts[k];
      }
      sb := sb + parts[k];
      if k < |parts| - 1 {
        sb := sb + "/";
      }
      k := k + 1;
    }
    assert parts[k..] == [];
    prefix := sb;
  }

  /** The last character of a join is the last character of its last part. */
  lemma {:induction false} JoinEndsLikeLastPart(parts: seq<string>, sep: string)
    requires |parts| >= 1 && parts[|parts| - 1] != ""
    ensures var j := Join(parts, sep); |j| > 0 && j[|j| - 1] == parts[|parts| - 1][|parts[|parts| - 1]| - 1]
    decreases |parts|
  {
    if |parts| > 1 {
      JoinEndsLikeLastPart(parts[1..], sep);
    }
  }

  lemma LitAtHead(s: string, i: int, lit: string)
    requires |lit| > 0 && LitAt(s, i, lit)
    ensures s[i] == lit[0]
  {
    assert s[i..i + |lit|][0] == s[i];
  }

  /** With the trailing "/" dropped and the host found, the path is what follows the host. */
  lemma RepoPathAt(url: string, u: string, i: nat)
    requires u == (if EndsWith(url, "/") then url[..|url| - 1] else url)
    requires IndexOf(u, HOST, 0) == i
    ensures RepoPath(url) == u[i + |HOST|..]
  {
  }

  /** Without the host, the path is the whole URL less its trailing "/". */
  lemma RepoPathNoHost(url: string, u: string)
    requires u == (if EndsWith(url, "/") then url[..|url| - 1] else url)
    requires !Contains(u, HOST)
    ensures RepoPath(url) == u
  {
    var i := IndexOf(u, HOST, 0);
    assert i >= 0 ==> LitAt(u, i, HOST);
  }

  /** After a scheme without the letter g, the first "github.com/" is the one that follows it. */
  lemma HostAfterScheme(scheme: string, rest: string)
    requires 'g' !in scheme
    ensures IndexOf(scheme + HOST + rest, HOST, 0) == |scheme|
    ensures (scheme + HOST + rest)[|scheme| + |HOST|..] == rest
  {
    var u := scheme + HOST + rest;
    var i := IndexOf(u, HOST, 0);
    assert LitAt(u, |scheme|, HOST) by {
      assert u[|scheme|..|scheme| + |HOST|] == HOST;
    }
    forall k | 0 <= k < |scheme| ensures u[k] != 'g' {
      assert u[k] == scheme[k];
    }
    LitAtHead(u, i, HOST);
  }

  /**
    A URL made of a scheme without the letter g, the host, and segments that
    are non-empty and hold no "/", splits back into those segments, with or
    without a trailing "/".
  */
  lemma SegmentsOfUrl(scheme: string, segs: seq<string>, slash: bool)
    requires 'g' !in scheme
    requires |segs| >= 1
    requires forall k | 0 <= k < |segs| :: segs[k] != "" && '/' !in segs[k]
    ensures Segments(scheme + HOST + Join(segs, "/") + (if slash then "/" else "")) == segs
  {
    var j := Join(segs, "/");
    var u := scheme + HOST + j;
    var url := u + (if slash then "/" else "");
    JoinEndsLikeLastPart(segs, "/");
    assert '/' !in segs[|segs| - 1];
    if slash {
      assert EndsWith(url, "/") && url[..|url| - 1] == u;
    } else {
      assert url == u && url[|url| - 1] == j[|j| - 1];
      assert !EndsWith(url, "/");
    }
    HostAfterScheme(scheme, j);
    assert RepoPath(url) == j;
    JavaSplitJoin(segs, '/');
  }

  /** A repository's home page names that repository, on the default branch, at its root. */
  lemma FromRepositoryPage(scheme: string, owner: string, repo: string, slash: bool)
    requires 'g' !in scheme
    requires owner != "" && '/' !in owner && repo != "" && '/' !in repo
    ensures RepoRefOf(scheme + HOST + owner + "/" + repo + (if slash then "/" else ""))
      == RepoRef(owner, repo, DEFAULT_BRANCH, "")
  {
    var segs := [owner, repo];
    assert Join(segs, "/") == owner + "/" + repo by {
      assert segs[1..] == [repo];
    }
    var tail := if slash then "/" else "";
    assert scheme + HOST + owner + "/" + repo + tail == scheme + HOST + Join(segs, "/") + tail;
    SegmentsOfUrl(scheme, segs, slash);
  }

  /** The usual way of writing a home page: https, no trailing "/". */
  lemma HomePageRef(owner: string, repo: string)
    requires owner != "" && '/' !in owner && repo != "" && '/' !in repo
    ensures RepoRefOf("https://github.com/" + owner + "/" + repo) == RepoRef(owner, repo, DEFAULT_BRANCH, "")
  {
    var url := "https://github.com/" + owner + "/" + repo;
    assert "https://github.com/" == "https://" + HOST;
    assert url == "https://" + HOST + owner + "/" + repo + "";
    FromRepositoryPage("https://", owner, repo, false);
  }

  /**
    A "tree" or "blob" page names its branch, and the directory is the
    remaining segments joined by "/".
  */
  lemma FromBranchPage(scheme: string, owner: string, repo: string, kind: string,
                       branch: string, dirs: seq<string>, slash: bool)
    requires 'g' !in scheme
    requires kind == "tree" || kind == "blob"
    requires forall s | s in [owner, repo, branch] + dirs :: s != "" && '/' !in s
    ensures RepoRefOf(scheme + HOST + Join([owner, repo, kind, branch] + dirs, "/") + (if slash then "/" else ""))
      == RepoRef(owner, repo, branch, Join(dirs, "/"))
  {
    var segs := [owner, repo, kind, branch] + dirs;
    forall k | 0 <= k < |segs| ensures segs[k] != "" && '/' !in segs[k] {
      if k == 2 {
        assert segs[k] == kind;
      } else if k < 4 {
        assert segs[k] in [owner, repo, branch] + dirs;
      } else {
        assert segs[k] == dirs[k - 4];
        assert segs[k] in [owner, repo, branch] + dirs;
      }
    }
    SegmentsOfUrl(scheme, segs, slash);
    assert segs[4..] == dirs;
  }

  /**
    Any other page below a repository (issues, pulls, …) names the
    repository on the default branch at its root.
  */
  lemma FromOtherPage(scheme: string, owner: string, repo: string, rest: seq<string>, slash: bool)
    requires 'g' !in scheme
    requires rest != [] && rest[0] != "tree" && rest[0] != "blob"
    requires forall s | s in [owner, repo] + rest :: s != "" && '/' !in s
    ensures RepoRefOf(scheme + HOST + Join([owner, repo] + rest, "/") + (if slash then "/" else ""))
      == RepoRef(owner, repo, DEFAULT_BRANCH, "")
  {
    var segs := [owner, repo] + rest;
    forall k | 0 <= k < |segs| ensures segs[k] != "" && '/' !in segs[k] {
      assert segs[k] in [owner, repo] + rest;
    }
    SegmentsOfUrl(scheme, segs, slash);
    assert segs[2] == rest[0];
  }

  // ---------------------------------------------------------------------
  // The directory prefix of the tree listing
  // ---------------------------------------------------------------------

  /**
    The prefix as `listFilesRecursive` compares paths with it: backslashes
    turned into "/", one leading "/" dropped, and a "/" added to a non-empty
    prefix that does not end in one.
  */
  function NormalizePrefix(prefix: string): (r: string)
    ensures '\\' !in r
    ensures r == [] || r[|r| - 1] == '/'
    ensures r == [] <==> prefix == [] || prefix == "/" || prefix == "\\"
  {
    var p := ReplaceChar(prefix, '\\', '/');
    var q := if StartsWith(p, "/") then p[1..] else p;
    if |q| > 0 && !EndsWith(q, "/") then q + "/" else q
  }

  /** A relative directory already ending in "/" is left as it is. */
  lemma NormalizeKeepsDirectory(prefix: string)
    requires prefix != [] && '\\' !in prefix && prefix[0] != '/' && prefix[|prefix| - 1] == '/'
    ensures NormalizePrefix(prefix) == prefix
  {
    var p := ReplaceChar(prefix, '\\', '/');
    assert p == prefix;
    assert !StartsWith(p, "/");
    assert EndsWith(p, "/");
  }

  /** A relative directory written without the final "/" gets it. */
  lemma NormalizeAddsSlash(prefix: string)
    requires prefix != [] && '\\' !in prefix && prefix[0] != '/' && prefix[|prefix| - 1] != '/'
    ensures NormalizePrefix(prefix) == prefix + "/"
  {
    var p := ReplaceChar(prefix, '\\', '/');
    assert p == prefix;
    assert !StartsWith(p, "/");
    assert !EndsWith(p, "/");
  }

  /** Windows separators are read as "/": "src\\main" and "src/main" name the same directory. */
  lemma NormalizeReadsBackslashes(prefix: string)
    ensures NormalizePrefix(prefix) == NormalizePrefix(ReplaceChar(prefix, '\\', '/'))
  {
    var p := ReplaceChar(prefix, '\\', '/');
    assert ReplaceChar(p, '\\', '/') == p;
  }

  /** Only one leading "/" is dropped: "//src" normalises to "/src/", not "src/". */
  lemma NormalizeDropsOneSlash()
    ensures NormalizePrefix("//src") == "/src/"
  {
    var p := ReplaceChar("//src", '\\', '/');
    assert p == "//src";
    assert StartsWith(p, "/");
    assert p[1..] == "/src";
    assert !EndsWith("/src", "/");
  }

  // ---------------------------------------------------------------------
  // The tree listing scanner
  // ---------------------------------------------------------------------

  const PATH_KEY := "\"path\":"
  const TYPE_KEY := "\"type\":"
  const BLOB := "blob"

  /**
    `json[start..end]` is the first quoted text at or after `from`: the
    character before `start` is the first quote there, `end` the next one.
  */
  predicate QuotedRun(json: string, from: nat, start: nat, end: nat) {
    from < start <= end < |json| && json[start - 1] == '"' && json[end] == '"'
    && (forall k | from <= k < start - 1 :: json[k] != '"')
    && (forall k | start <= k < end :: json[k] != '"')
  }

  /**
    The pair of `indexOf('"', …)` calls that delimit a value: `None` where
    the scanner gives up, that is when there is no opening quote, no closing
    quote, or nothing between them.
  */
  function Quoted(json: string, from: nat): (r: Option<(nat, nat)>)
    ensures r.Some? ==> QuotedRun(json, from, r.value.0, r.value.1) && r.value.0 < r.value.1
    ensures r.None? ==> forall start, end | QuotedRun(json, from, start, end) :: start == end
  {
    var start := IndexOfChar(json, '"', from) + 1;
    if start <= 0 then None
    else
      var end := IndexOfChar(json, '"', start);
      if end <= start then None else Some((start, end))
  }

  /** The text of the first quoted value at or after `from`. */
  function QuotedText(json: string, from: nat): Option<string> {
    match Quoted(json, from)
    case None => None
    case Some((start, end)) => Some(json[start..end])
  }

  /**
    `indexOf('}', end)`, or `end + 1` when there is none: where the scanner
    takes the entry to stop.
  */
  function ObjectEnd(json: string, end: nat): (r: nat)
    ensures end <= r
    ensures (r < |json| && json[r] == '}') || (r == end + 1 && forall k | end <= k < |json| :: json[k] != '}')
    ensures forall k | end <= k < r && k < |json| :: json[k] != '}'
  {
    var i := IndexOfChar(json, '}', end);
    if i == -1 then end + 1 else i
  }

  /**
    The type the scanner reads for an entry whose path closes at `end` and
    whose object closes at `objEnd`: the value of the first "type": key after
    the path, provided that key comes before the object's end.
  */
  function TypeOf(json: string, end: nat, objEnd: nat): Option<string> {
    var t := IndexOf(json, TYPE_KEY, end);
    if t != -1 && t < objEnd then QuotedText(json, t + |TYPE_KEY|) else None
  }

  /** A type is read only from the first "type": key before the object's end; with no such key none is read. */
  lemma TypeOfFindsKey(json: string, end: nat, objEnd: nat)
    ensures var r := TypeOf(json, end, objEnd);
      r.Some? ==> exists t | end <= t < objEnd && LitAt(json, t, TYPE_KEY) ::
        (forall u | end <= u < t :: !LitAt(json, u, TYPE_KEY)) && QuotedText(json, t + |TYPE_KEY|) == r
    ensures (forall t | end <= t < objEnd :: !LitAt(json, t, TYPE_KEY)) ==> TypeOf(json, end, objEnd).None?
  {
  }

  /**
    One tree entry as the scanner reads it: the position of its "path": key,
    the bounds of the path text, the type found for it, and where the search
    for the next entry starts.
  */
  datatype Entry = Entry(key: nat, start: nat, end: nat, kind: Option<string>, next: nat)

  function PathOf(json: string, e: Entry): string {
    if e.start <= e.end <= |json| then json[e.start..e.end] else ""
  }

  /** Reading the entry whose "path": key sits at `key`; `None` ends the scan. */
  function ReadEntry(json: string, key: nat): (r: Option<Entry>)
    requires LitAt(json, key, PATH_KEY)
    ensures r.None? <==> Quoted(json, key + |PATH_KEY|).None?
    ensures r.Some? ==>
      r.value.key == key && r.value.start < r.value.end
      && QuotedRun(json, key + |PATH_KEY|, r.value.start, r.value.end)
    ensures r.Some? ==> r.value.next == ObjectEnd(json, r.value.end) + 1 && r.value.end < r.value.next
    ensures r.Some? ==> r.value.kind == TypeOf(json, r.value.end, r.value.next - 1)
  {
    match Quoted(json, key + |PATH_KEY|)
    case None => None
    case Some((start, end)) =>
      var objEnd := ObjectEnd(json, end);
      Some(Entry(key, start, end, TypeOf(json, end, objEnd), objEnd + 1))
  }

  /** The entries the scanner reads from `from` on, one per "path": key it stops at. */
  function Entries(json: string, from: nat): seq<Entry>
    decreases |json| + 1 - from
  {
    var key := IndexOf(json, PATH_KEY, from);
    if key < 0 then []
    else match ReadEntry(json, key)
      case None => []
      case Some(e) => [e] + Entries(json, e.next)
  }

  /** Keys at or after `from`, each entry's object after its key, and each search resuming after the previous object. */
  predicate InDocumentOrder(es: seq<Entry>, from: nat) {
    (forall i | 0 <= i < |es| :: from <= es[i].key < es[i].next)
    && (forall i | 0 <= i < |es| - 1 :: es[i].next <= es[i + 1].key)
  }

  /** Each entry is what the scanner reads at its own "path": key. */
  predicate ReadAtKeys(json: string, es: seq<Entry>) {
    forall i | 0 <= i < |es| :: LitAt(json, es[i].key, PATH_KEY) && ReadEntry(json, es[i].key) == Some(es[i])
  }

  lemma InDocumentOrderCons(e: Entry, rest: seq<Entry>, from: nat)
    requires from <= e.key < e.next && InDocumentOrder(rest, e.next)
    ensures InDocumentOrder([e] + rest, from)
  {
    var es := [e] + rest;
    forall i | 0 <= i < |es| - 1 ensures es[i].next <= es[i + 1].key {
      assert es[i + 1] == rest[i];
    }
  }

  lemma ReadAtKeysCons(json: string, e: Entry, rest: seq<Entry>)
    requires LitAt(json, e.key, PATH_KEY) && ReadEntry(json, e.key) == Some(e) && ReadAtKeys(json, rest)
    ensures ReadAtKeys(json, [e] + rest)
  {
    var es := [e] + rest;
    forall i | 0 <= i < |es| ensures LitAt(json, es[i].key, PATH_KEY) && ReadEntry(json, es[i].key) == Some(es[i]) {
      if i > 0 {
        assert es[i] == rest[i - 1];
      }
    }
  }

  /**
    The entries come in document order, each read at its own "path": key;
    since every search resumes after the previous entry's object, the keys
    strictly increase, which is also why the scan ends.
  */
  lemma {:induction false} EntriesInOrder(json: string, from: nat)
    ensures InDocumentOrder(Entries(json, from), from)
    ensures ReadAtKeys(json, Entries(json, from))
    decreases |json| + 1 - from
  {
    var key := IndexOf(json, PATH_KEY, from);
    if key >= 0 && ReadEntry(json, key).Some? {
      var e := ReadEntry(json, key).value;
      EntriesInOrder(json, e.next);
      var rest := Entries(json, e.next);
      assert Entries(json, from) == [e] + rest;
      assert e.key == key && e.end < e.next;
      InDocumentOrderCons(e, rest, from);
      ReadAtKeysCons(json, e, rest);
    }
  }

  /** An entry is listed when its type reads "blob" and its path starts with the prefix ("" admits all). */
  predicate Listed(json: string, e: Entry, prefix: string) {
    e.kind == Some(BLOB) && (prefix == [] || StartsWith(PathOf(json, e), prefix))
  }

  /** The paths of the listed entries, in the entries' order. */
  function Select(json: string, es: seq<Entry>, prefix: string): seq<string> {
    if es == [] then []
    else (if Listed(json, es[0], prefix) then [PathOf(json, es[0])] else []) + Select(json, es[1..], prefix)
  }

  /** What the scan of a tree listing returns for a normalised prefix. */
  function TreePaths(json: string, prefix: string): seq<string> {
    Select(json, Entries(json, 0), prefix)
  }

  /** Selecting from two runs of entries is selecting from each in turn: the order of the entries is kept. */
  lemma {:induction false} SelectAppend(json: string, a: seq<Entry>, b: seq<Entry>, prefix: string)
    ensures Select(json, a + b, prefix) == Select(json, a, prefix) + Select(json, b, prefix)
    decreases |a|
  {
    if a == [] {
      assert a + b == b;
    } else {
      assert (a + b)[0] == a[0] && (a + b)[1..] == a[1..] + b;
      SelectAppend(json, a[1..], b, prefix);
    }
  }

  /** Every selected path starts with the prefix. */
  lemma {:induction false} SelectStartsWith(json: string, es: seq<Entry>, prefix: string)
    ensures forall p | p in Select(json, es, prefix) :: StartsWith(p, prefix)
    decreases |es|
  {
    if es != [] {
      SelectStartsWith(json, es[1..], prefix);
      if prefix == [] {
        forall p | p in Select(json, es, prefix) ensures StartsWith(p, prefix) {
          assert p[0..0] == [];
        }
      }
    }
  }

  /** A selected path is the path of a listed entry. */
  lemma {:induction false} SelectSound(json: string, es: seq<Entry>, prefix: string)
    ensures forall p | p in Select(json, es, prefix) ::
      exists i | 0 <= i < |es| :: Listed(json, es[i], prefix) && PathOf(json, es[i]) == p
    decreases |es|
  {
    if es != [] {
      SelectSound(json, es[1..], prefix);
      forall p | p in Select(json, es[1..], prefix)
        ensures exists i | 0 <= i < |es| :: Listed(json, es[i], prefix) && PathOf(json, es[i]) == p
      {
        var i :| 0 <= i < |es[1..]| && Listed(json, es[1..][i], prefix) && PathOf(json, es[1..][i]) == p;
        assert es[i + 1] == es[1..][i];
      }
    }
  }

  /** The path of every listed entry is selected. */
  lemma {:induction false} SelectComplete(json: string, es: seq<Entry>, prefix: string)
    ensures forall i | 0 <= i < |es| && Listed(json, es[i], prefix) :: PathOf(json, es[i]) in Select(json, es, prefix)
    decreases |es|
  {
    if es != [] {
      SelectComplete(json, es[1..], prefix);
      forall i | 0 <= i < |es| && Listed(json, es[i], prefix)
        ensures PathOf(json, es[i]) in Select(json, es, prefix)
      {
        if i > 0 {
          assert es[i] == es[1..][i - 1];
        }
      }
    }
  }

  /** One turn of the scan: the entry read at the next key, then the scan after its object. */
  lemma ScanStep(json: string, from: nat, e: Entry, prefix: string)
    requires IndexOf(json, PATH_KEY, from) >= 0
    requires ReadEntry(json, IndexOf(json, PATH_KEY, from)) == Some(e)
    ensures Select(json, Entries(json, from), prefix)
      == (if Listed(json, e, prefix) then [PathOf(json, e)] else []) + Select(json, Entries(json, e.next), prefix)
  {
    var rest := Entries(json, e.next);
    assert Entries(json, from) == [e] + rest;
    assert ([e] + rest)[1..] == rest;
  }

  /** Where the scan stops: no further key, or a key whose path is not a non-empty quoted text. */
  lemma ScanStops(json: string, from: nat, prefix: string)
    requires IndexOf(json, PATH_KEY, from) < 0 || ReadEntry(json, IndexOf(json, PATH_KEY, from)).None?
    ensures Select(json, Entries(json, from), prefix) == []
  {
  }

  lemma Regroup<T>(a: seq<T>, b: seq<T>, c: seq<T>)
    ensures (a + b) + c == a + (b + c)
  {
  }

  /** Reading an entry is the two quote searches, the object's end and the type. */
  lemma ReadEntryAt(json: string, key: nat, start: nat, end: nat, objEnd: nat)
    requires LitAt(json, key, PATH_KEY)
    requires start == IndexOfChar(json, '"', key + |PATH_KEY|) + 1
    requires end == IndexOfChar(json, '"', start) && 0 < start < end
    requires objEnd == ObjectEnd(json, end)
    ensures ReadEntry(json, key) == Some(Entry(key, start, end, TypeOf(json, end, objEnd), objEnd + 1))
  {
    assert Quoted(json, key + |PATH_KEY|) == Some((start, end));
  }

  /**
    `listFilesRecursive`: the tree listing of the repository `url` names,
    given the JSON answer of the git-trees API (`None` for a null answer).
  */
  method ListFilesRecursive(url: string, json: Option<string>) returns (paths: seq<string>)
    ensures json.None? || json == Some("") ==> paths == []
    ensures json.Some? ==> paths == TreePaths(json.value, NormalizePrefix(RepoRefOf(url).prefix))
    ensures forall p | p in paths :: StartsWith(p, NormalizePrefix(RepoRefOf(url).prefix))
  {
    var ref := FromUrl(url);
    paths := [];
    if json.None? || json.value == "" {
      return;
    }
    var prefix := ReplaceChar(ref.prefix, '\\', '/');
    if StartsWith(prefix, "/") {
      prefix := prefix[1..];
    }
    if |prefix| > 0 && !EndsWith(prefix, "/") {
      prefix := prefix + "/";
    }
    assert prefix == NormalizePrefix(ref.prefix);
    paths := ScanTree(json.value, prefix);
    SelectStartsWith(json.value, Entries(json.value, 0), prefix);
  }

  /** The scanning loop of `listFilesRecursive` over the listing `text`, for a normalised prefix. */
  method ScanTree(text: string, prefix: string) returns (paths: seq<string>)
    ensures paths == TreePaths(text, prefix)
  {
    paths := [];
    var idx: nat := 0;
    while true
      invariant paths + Select(text, Entries(text, idx), prefix) == TreePaths(text, prefix)
      decreases |text| + 1 - idx
    {
      var key := IndexOf(text, PATH_KEY, idx);
      if key == -1 {
        ScanStops(text, idx, prefix);
        break;
      }
      var ok, path, kind, objEnd := ReadTreeEntry(text, key);
      if !ok {
        ScanStops(text, idx, prefix);
        break;
      }
      ghost var e := ReadEntry(text, key).value;
      ghost var before := paths;
      ScanStep(text, idx, e, prefix);
      if kind == Some(BLOB) {
        if prefix == "" || StartsWith(path, prefix) {
          paths := paths + [path];
        }
      }
      ghost var piece := if Listed(text, e, prefix) then [path] else [];
      ghost var later := Select(text, Entries(text, e.next), prefix);
      assert paths == before + piece;
      Regroup(before, piece, later);
      idx := objEnd + 1;
      assert idx == e.next;
    }
  }

  /**
    The body of the scanning loop up to the type test: the path text after the
    key, the end of the entry's object, and the entry's type; `ok` is false
    where the loop breaks off.
  */
  method ReadTreeEntry(text: string, key: nat) returns (ok: bool, path: string, kind: Option<string>, objEnd: nat)
    requires LitAt(text, key, PATH_KEY)
    ensures ok <==> ReadEntry(text, key).Some?
    ensures ok ==> var e := ReadEntry(text, key).value;
      path == PathOf(text, e) && kind == e.kind && objEnd + 1 == e.next
  {
    path, kind, objEnd := "", None, 0;
    var start := IndexOfChar(text, '"', key + 7) + 1;
    var end := IndexOfChar(text, '"', start);
    if start <= 0 || end <= start {
      assert Quoted(text, key + |PATH_KEY|).None?;
      return false, path, kind, objEnd;
    }
    path := text[start..end];
    var close := IndexOfChar(text, '}', end);
    if close == -1 {
      close := end + 1;
    }
    objEnd := close;
    kind := ReadType(text, end, objEnd);
    ReadEntryAt(text, key, start, end, objEnd);
    ok := true;
  }

  /** The type lookup of one entry (the "type": key before the object's end, and its quoted value). */
  method ReadType(text: string, end: nat, objEnd: nat) returns (kind: Option<string>)
    ensures kind == TypeOf(text, end, objEnd)
  {
    kind := None;
    var typeIdx := IndexOf(text, TYPE_KEY, end);
    TypeOfAt(text, end, objEnd, typeIdx);
    if typeIdx != -1 && typeIdx < objEnd {
      kind := ReadQuoted(text, typeIdx + 7);
    }
  }

  /** `TypeOf` read off the position of the first "type": key. */
  lemma TypeOfAt(text: string, end: nat, objEnd: nat, t: int)
    requires t == IndexOf(text, TYPE_KEY, end)
    ensures TypeOf(text, end, objEnd) == if t != -1 && t < objEnd then QuotedText(text, t + 7) else None
  {
    assert |TYPE_KEY| == 7;
  }

  /** The quoted text after `from`: the first two quotes there, when the second closes a non-empty run. */
  method ReadQuoted(text: string, from: nat) returns (r: Option<string>)
    ensures r == QuotedText(text, from)
  {
    var start := IndexOfChar(text, '"', from) + 1;
    var end := IndexOfChar(text, '"', start);
    if start > 0 && end > start {
      assert Quoted(text, from) == Some((start, end));
      r := Some(text[start..end]);
    } else {
      assert Quoted(text, from) == None;
      r := None;
    }
  }

  /** A "type": key whose quoted value is "blob" sits after the entry's path and before its object's end. */
  predicate HasBlobType(json: string, e: Entry) {
    exists t | e.end <= t < e.next - 1 && LitAt(json, t, TYPE_KEY) :: QuotedText(json, t + |TYPE_KEY|) == Some(BLOB)
  }

  /** An entry read at its key whose type reads "blob" has a "blob" type key before its object's end. */
  lemma BlobEntryHasBlobType(json: string, e: Entry)
    requires LitAt(json, e.key, PATH_KEY) && ReadEntry(json, e.key) == Some(e) && e.kind == Some(BLOB)
    ensures QuotedRun(json, e.key + |PATH_KEY|, e.start, e.end) && HasBlobType(json, e)
  {
    assert e.kind == TypeOf(json, e.end, e.next - 1);
    TypeOfFindsKey(json, e.end, e.next - 1);
  }

  lemma {:induction false} SelectedAreBlobs(json: string, es: seq<Entry>, prefix: string)
    requires ReadAtKeys(json, es)
    ensures forall p | p in Select(json, es, prefix) :: exists e | e in es ::
      PathOf(json, e) == p && LitAt(json, e.key, PATH_KEY)
      && QuotedRun(json, e.key + |PATH_KEY|, e.start, e.end) && HasBlobType(json, e)
  {
    SelectSound(json, es, prefix);
    forall p | p in Select(json, es, prefix) ensures exists e | e in es ::
      PathOf(json, e) == p && LitAt(json, e.key, PATH_KEY)
      && QuotedRun(json, e.key + |PATH_KEY|, e.start, e.end) && HasBlobType(json, e)
    {
      var i :| 0 <= i < |es| && Listed(json, es[i], prefix) && PathOf(json, es[i]) == p;
      BlobEntryHasBlobType(json, es[i]);
      assert es[i] in es;
    }
  }

  /**
    What the listing holds: every path starts with the prefix and is the
    quoted text after a "path": key whose entry has a "blob" type before its
    object's end; and every entry whose type reads "blob" and whose path
    starts with the prefix is listed.
  */
  lemma TreePathsAreListedBlobs(json: string, prefix: string)
    ensures forall p | p in TreePaths(json, prefix) :: StartsWith(p, prefix)
    ensures forall p | p in TreePaths(json, prefix) :: exists e | e in Entries(json, 0) ::
      PathOf(json, e) == p && LitAt(json, e.key, PATH_KEY)
      && QuotedRun(json, e.key + |PATH_KEY|, e.start, e.end) && HasBlobType(json, e)
    ensures forall e | e in Entries(json, 0) && e.kind == Some(BLOB) && (prefix == [] || StartsWith(PathOf(json, e), prefix))
      :: PathOf(json, e) in TreePaths(json, prefix)
  {
    var es := Entries(json, 0);
    EntriesInOrder(json, 0);
    SelectStartsWith(json, es, prefix);
    SelectedAreBlobs(json, es, prefix);
    SelectComplete(json, es, prefix);
    forall e | e in es && e.kind == Some(BLOB) && (prefix == [] || StartsWith(PathOf(json, e), prefix))
      ensures PathOf(json, e) in TreePaths(json, prefix)
    {
      var i :| 0 <= i < |es| && es[i] == e;
      assert Listed(json, es[i], prefix);
    }
  }
}
