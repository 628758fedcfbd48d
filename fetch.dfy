/** FetchRepo (nodes.py:27-85): the project name and the check on the crawl result. */
module FetchRepo {
  import opened Outcome
  import opened Text
  import opened FileContent

  /** `repo_url.split("/")[-1].replace(".git", "")`. */
  function RepoName(url: string): string {
    Replace(Last(Split(url, "/")), ".git", "")
  }

  /** `prep`'s name rule: a non-empty given name wins; otherwise the name comes
      from a non-empty repository URL, else from the base name of the local
      directory (computed outside the model from the working directory). */
  function DeriveProjectName(given: Option<string>, repoUrl: Option<string>, localDirName: string): string {
    if given.Some? && given.value != "" then given.value
    else if repoUrl.Some? && repoUrl.value != "" then RepoName(repoUrl.value)
    else localDirName
  }

  lemma GitTagUnique()
    ensures LastCharUnique(".git")
  {
  }

  /** The last path segment of a URL, with every ".git" in it removed: a
      segment made of pieces joined by ".git" becomes the pieces run together,
      so a trailing suffix goes, but so does one inside the name
      ("user.github.io" becomes "userhub.io"). */
  lemma RepoNameRemovesEveryGit(prefix: string, pieces: seq<string>)
    requires forall k :: 0 <= k < |pieces| ==> '/' !in pieces[k] && !Contains(pieces[k], ".git")
    ensures RepoName(prefix + "/" + Join(".git", pieces)) == Join("", pieces)
  {
    if pieces == [] {
      RepoNameOfPlainSegment(prefix, "");
    } else {
      var name := Join(".git", pieces);
      CharNotInJoin('/', ".git", pieces);
      LastSegment(prefix, name);
      PiecesRunTogether(pieces);
    }
  }

  lemma LastSegment(prefix: string, name: string)
    requires '/' !in name
    ensures Last(Split(prefix + "/" + name, "/")) == name
  {
    assert prefix + "/" + name == prefix + ['/'] + name;
    SplitLastPiece(prefix, '/', name);
  }

  /** `".git".join(pieces).replace(".git", "")` runs the pieces together. */
  lemma PiecesRunTogether(pieces: seq<string>)
    requires |pieces| > 0 && forall k :: 0 <= k < |pieces| ==> !Contains(pieces[k], ".git")
    ensures Replace(Join(".git", pieces), ".git", "") == Join("", pieces)
  {
    GitTagUnique();
    SplitJoin(".git", pieces);
  }

  /** `(a + ".git" + b).replace(".git", "")` for `a` and `b` without ".git". */
  lemma GitRemoved(a: string, b: string)
    requires !Contains(a, ".git") && !Contains(b, ".git")
    ensures Replace(a + ".git" + b, ".git", "") == a + b
  {
    var name := a + ".git" + b;
    GitTagUnique();
    FindAfterClearPrefix(a, ".git", b);
    SplitCons(name, ".git");
    SplitSingle(b, ".git");
    assert Split(name, ".git") == [a, b];
    assert [a, b][1..] == [b];
    assert Join("", [a, b]) == a + "" + b;
  }

  /** A URL whose last segment holds no ".git" names the project by that segment. */
  lemma RepoNameOfPlainSegment(prefix: string, name: string)
    requires '/' !in name && !Contains(name, ".git")
    ensures RepoName(prefix + "/" + name) == name
  {
    assert prefix + "/" + name == prefix + ['/'] + name;
    SplitLastPiece(prefix, '/', name);
  }

  lemma NoGitInEmpty()
    ensures !Contains("", ".git")
  {
  }

  /** "name.git" loses its suffix. */
  lemma GitSuffixRemoved(name: string)
    requires !Contains(name, ".git")
    ensures Replace(name + ".git", ".git", "") == name
  {
    NoGitInEmpty();
    GitRemoved(name, "");
    assert name + ".git" + "" == name + ".git";
  }

  /** The usual case: "https://host/owner/name.git" and "https://host/owner/name"
      both name the project `name`, unless a name is given. */
  lemma ProjectNameFromCloneUrl(prefix: string, name: string, localDirName: string)
    requires '/' !in name && !Contains(name, ".git") && name != ""
    ensures DeriveProjectName(None, Some(prefix + "/" + name + ".git"), localDirName) == name
    ensures DeriveProjectName(Some(""), Some(prefix + "/" + name), localDirName) == name
  {
    RepoNameOfCloneUrl(prefix, name);
    RepoNameOfPlainSegment(prefix, name);
  }

  lemma RepoNameOfCloneUrl(prefix: string, name: string)
    requires '/' !in name && !Contains(name, ".git")
    ensures RepoName(prefix + "/" + name + ".git") == name
  {
    var url := prefix + "/" + name + ".git";
    assert '/' !in name + ".git";
    assert url == prefix + ['/'] + (name + ".git");
    SplitLastPiece(prefix, '/', name + ".git");
    assert Last(Split(url, "/")) == name + ".git";
    GitSuffixRemoved(name);
  }

  /** `exec` after the crawl: the crawled `(path, content)` pairs, or the
      "Failed to fetch files" error when there are none. */
  function FetchExec(crawled: seq<File>): (r: Result<seq<File>>)
    ensures r.Err? <==> crawled == []
    ensures r.Err? ==> r.error == NoFiles
    ensures r.Ok? ==> r.value == crawled && |r.value| > 0
  {
    if |crawled| == 0 then Err(NoFiles) else Ok(crawled)
  }
}
