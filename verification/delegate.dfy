/**
  Two helpers of the background loader: counting the non-blank lines of a
  file (`countLines`) and turning a repository path into the address of
  its raw content (`convertToBlobUrl`).
*/
module Delegate {
  import opened JavaText
  import GitHubHandler

  // ---------------------------------------------------------------------
  // countLines
  // ---------------------------------------------------------------------

  /** The `\r?` of the separator: a carriage return just before a line feed belongs to the separator. */
  function DropCR(piece: string): (r: string)
    ensures r == piece || (piece != [] && piece[|piece| - 1] == '\r' && r == piece[..|piece| - 1])
  {
    if piece != [] && piece[|piece| - 1] == '\r' then piece[..|piece| - 1] else piece
  }

  /** Every piece between the `\r?\n` separators, empty pieces included. */
  function LinePieces(s: string): (r: seq<string>)
    ensures |r| >= 1
    decreases |s|
  {
    var i := IndexOfChar(s, '\n', 0);
    if i < 0 then [s] else [DropCR(s[..i])] + LinePieces(s[i + 1..])
  }

  /**
    `s.split("\\r?\\n")`: the whole text when it holds no line feed,
    otherwise the pieces without the trailing empty ones.
  */
  function LineSplit(s: string): seq<string> {
    if '\n' !in s then [s] else DropTrailingEmpty(LinePieces(s))
  }

  /**
    A line that `trim()` does not leave empty, the lines `countLines` counts:
    one holding a character above U+0020 (`CountedIsTrimNonEmpty`).
  */
  predicate Counted(line: string) {
    exists k | 0 <= k < |line| :: line[k] > ' '
  }

  lemma CountedIsTrimNonEmpty(line: string)
    ensures Counted(line) <==> Trim(line) != []
  {
  }

  /** How many of `xs` satisfy `p`. */
  function Count<T>(xs: seq<T>, p: T -> bool): (n: nat)
    ensures n <= |xs|
  {
    if xs == [] then 0
    else (if p(xs[0]) then 1 else 0) + Count(xs[1..], p)
  }

  /** The number of lines that are not blank. */
  function NonBlank(lines: seq<string>): nat {
    Count(lines, Counted)
  }

  /** `countLines`: 0 for a null or empty text, otherwise the loop over the lines. */
  method CountLines(content: Option<string>) returns (count: nat)
    ensures content.None? || content == Some("") ==> count == 0
    ensures content.Some? ==> count == NonBlank(LineSplit(content.value))
    ensures content.Some? ==> count <= |LineSplit(content.value)|
  {
    if content.None? || content.value == "" {
      return 0;
    }
    var lines := LineSplit(content.value);
    count := 0;
    var i := 0;
    while i < |lines|
      invariant 0 <= i <= |lines|
      invariant count + NonBlank(lines[i..]) == NonBlank(lines)
    {
      assert lines[i..][1..] == lines[i + 1..];
      CountedIsTrimNonEmpty(lines[i]);
      if Trim(lines[i]) != [] {
        count := count + 1;
      }
      i := i + 1;
    }
    assert lines[i..] == [];
  }

  lemma {:induction false} CountAppend<T>(a: seq<T>, b: seq<T>, p: T -> bool)
    ensures Count(a + b, p) == Count(a, p) + Count(b, p)
    decreases |a|
  {
    if a == [] {
      assert a + b == b;
    } else {
      assert (a + b)[0] == a[0] && (a + b)[1..] == a[1..] + b;
      CountAppend(a[1..], b, p);
    }
  }

  /** The positions whose element satisfies `p`. */
  function Positions<T>(xs: seq<T>, p: T -> bool): set<int> {
    set k | 0 <= k < |xs| && p(xs[k])
  }

  /** The count is the number of positions whose element satisfies `p`. */
  lemma {:induction false} CountPositions<T>(xs: seq<T>, p: T -> bool)
    ensures Count(xs, p) == |Positions(xs, p)|
    decreases |xs|
  {
    if xs != [] {
      var n := |xs| - 1;
      var init := xs[..n];
      CountPositions(init, p);
      assert xs == init + [xs[n]];
      CountAppend(init, [xs[n]], p);
      assert [xs[n]][1..] == [];
      var before := Positions(init, p);
      var all := Positions(xs, p);
      var last := if p(xs[n]) then {n} else {};
      forall k ensures k in all <==> k in before + last {
        if 0 <= k < n {
          assert init[k] == xs[k];
        }
      }
      assert n !in before;
      if p(xs[n]) {
        assert all == before + {n};
        assert |all| == |before| + 1;
      } else {
        assert all == before;
      }
    }
  }

  /** The positions of the lines `countLines` counts. */
  function CountedPositions(lines: seq<string>): set<int> {
    set k | 0 <= k < |lines| && Counted(lines[k])
  }

  /** `countLines` counts exactly the lines that are non-empty after trimming. */
  lemma NonBlankCountsLines(lines: seq<string>)
    ensures NonBlank(lines) == |CountedPositions(lines)|
  {
    var counted: string -> bool := Counted;
    CountPositions(lines, counted);
    assert Positions(lines, counted) == CountedPositions(lines);
  }

  /** Lines made only of characters up to U+0020 contribute nothing. */
  lemma {:induction false} NonBlankOfBlankPieces(lines: seq<string>)
    requires forall k | 0 <= k < |lines| :: lines[k] == ""
    ensures NonBlank(lines) == 0
    decreases |lines|
  {
    if lines != [] {
      assert !Counted(lines[0]);
      NonBlankOfBlankPieces(lines[1..]);
    }
  }

  /** Dropping the trailing empty pieces does not change the count. */
  lemma DropTrailingEmptyKeepsCount(pieces: seq<string>)
    ensures NonBlank(DropTrailingEmpty(pieces)) == NonBlank(pieces)
  {
    var r := DropTrailingEmpty(pieces);
    var rest := pieces[|r|..];
    assert pieces == r + rest;
    CountAppend(r, rest, Counted);
    NonBlankOfBlankPieces(rest);
  }

  /** A carriage return is trimmed anyway, so dropping it before a line feed changes no blankness. */
  lemma DropCRKeepsBlankness(piece: string)
    ensures Counted(DropCR(piece)) <==> Counted(piece)
  {
    var r := DropCR(piece);
    if r != piece {
      assert forall k | 0 <= k < |r| :: r[k] == piece[k];
      assert piece[|piece| - 1] <= ' ';
    }
  }

  lemma {:induction false} LinePiecesCount(s: string)
    ensures NonBlank(LinePieces(s)) == NonBlank(SplitAll(s, '\n'))
    decreases |s|
  {
    var i := IndexOfChar(s, '\n', 0);
    if i >= 0 {
      LinePiecesCount(s[i + 1..]);
      DropCRKeepsBlankness(s[..i]);
      var a := LinePieces(s);
      var b := SplitAll(s, '\n');
      assert a[1..] == LinePieces(s[i + 1..]);
      assert b[1..] == SplitAll(s[i + 1..], '\n');
    }
  }

  /**
    Splitting on `\r?\n` counts the same non-blank lines as splitting on
    line feeds alone and keeping every piece.
  */
  lemma CountIgnoresCarriageReturns(s: string)
    ensures NonBlank(LineSplit(s)) == NonBlank(SplitAll(s, '\n'))
  {
    LinePiecesCount(s);
    if '\n' in s {
      DropTrailingEmptyKeepsCount(LinePieces(s));
    } else {
      assert IndexOfChar(s, '\n', 0) == -1;
    }
  }

  /** Every character is at most U+0020: what `trim()` removes entirely. */
  predicate AllBlank(s: string) {
    forall k | 0 <= k < |s| :: s[k] <= ' '
  }

  lemma AllBlankAround(s: string, i: nat)
    requires i < |s| && s[i] <= ' '
    ensures AllBlank(s) <==> AllBlank(s[..i]) && AllBlank(s[i + 1..])
  {
    var head, tail := s[..i], s[i + 1..];
    assert forall k | 0 <= k < |head| :: head[k] == s[k];
    assert forall k | 0 <= k < |tail| :: tail[k] == s[i + 1 + k];
    if AllBlank(head) && AllBlank(tail) {
      forall k | 0 <= k < |s| ensures s[k] <= ' ' {
        if k < i {
          assert s[k] == head[k];
        } else if k > i {
          assert s[k] == tail[k - i - 1];
        }
      }
    }
  }

  /** Pieces between line feeds: no line is counted exactly when every character is at most U+0020. */
  lemma {:induction false} SplitCountZero(s: string)
    ensures NonBlank(SplitAll(s, '\n')) == 0 <==> AllBlank(s)
    decreases |s|
  {
    var i := IndexOfChar(s, '\n', 0);
    var pieces := SplitAll(s, '\n');
    if i < 0 {
      assert pieces == [s];
      assert pieces[1..] == [];
    } else {
      var head := s[..i];
      var tail := s[i + 1..];
      SplitCountZero(tail);
      assert pieces[0] == head && pieces[1..] == SplitAll(tail, '\n');
      assert NonBlank(pieces) == (if Counted(head) then 1 else 0) + NonBlank(SplitAll(tail, '\n'));
      assert Counted(head) <==> !AllBlank(head);
      AllBlankAround(s, i);
    }
  }

  /** `countLines` is 0 exactly when every character is at most U+0020, a space or a C0 control, the characters `trim()` drops. */
  lemma CountLinesZero(s: string)
    ensures NonBlank(LineSplit(s)) == 0 <==> AllBlank(s)
  {
    CountIgnoresCarriageReturns(s);
    SplitCountZero(s);
  }

  // ---------------------------------------------------------------------
  // convertToBlobUrl
  // ---------------------------------------------------------------------

  const RAW_HOST := "https://raw.githubusercontent.com/"

  /** `convertToBlobUrl`: the raw-content address of `path` in the repository and on the branch `url` names. */
  function ConvertToBlobUrl(url: string, path: string): (r: string)
    ensures StartsWith(r, RAW_HOST) && EndsWith(r, "/" + path)
  {
    RawUrl(GitHubHandler.RepoRefOf(url), path)
  }

  /** The raw-content address of `path` on the branch of `ref`. */
  function RawUrl(ref: GitHubHandler.RepoRef, path: string): (r: string)
    ensures StartsWith(r, RAW_HOST) && EndsWith(r, "/" + path)
  {
    var r := RAW_HOST + ref.owner + "/" + ref.repo + "/" + ref.branch + "/" + path;
    var mid := ref.owner + "/" + ref.repo + "/" + ref.branch;
    assert r == RAW_HOST + mid + ("/" + path);
    Affixes(RAW_HOST, mid, "/" + path);
    r
  }

  /** A repository's home page gives addresses on its default branch. */
  lemma BlobUrlOfRepositoryPage(owner: string, repo: string, path: string)
    requires owner != "" && '/' !in owner && repo != "" && '/' !in repo
    ensures ConvertToBlobUrl("https://github.com/" + owner + "/" + repo, path)
      == RAW_HOST + owner + "/" + repo + "/" + GitHubHandler.DEFAULT_BRANCH + "/" + path
  {
    GitHubHandler.HomePageRef(owner, repo);
  }

  /**
    A "tree" page gives addresses on its branch; the directory it shows does
    not enter the address, since listed paths start at the repository root.
  */
  lemma BlobUrlOfTreePage(owner: string, repo: string, branch: string, dirs: seq<string>, path: string)
    requires forall s | s in [owner, repo, branch] + dirs :: s != "" && '/' !in s
    ensures ConvertToBlobUrl("https://github.com/" + JavaText.Join([owner, repo, "tree", branch] + dirs, "/"), path)
      == RAW_HOST + owner + "/" + repo + "/" + branch + "/" + path
  {
    var url := "https://github.com/" + Join([owner, repo, "tree", branch] + dirs, "/");
    assert "https://github.com/" == "https://" + GitHubHandler.HOST;
    assert url == "https://" + GitHubHandler.HOST + Join([owner, repo, "tree", branch] + dirs, "/") + "";
    GitHubHandler.FromBranchPage("https://", owner, repo, "tree", branch, dirs, false);
    var ref := GitHubHandler.RepoRefOf(url);
    assert ref.owner == owner && ref.repo == repo && ref.branch == branch;
  }
}
