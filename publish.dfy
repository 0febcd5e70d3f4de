/** The decisions around publishing the pivot through the GitHub contents API: which sha the
    write carries, what the write payload holds, when the write counts as a success, and the
    URLs involved. The HTTP exchanges themselves are outside the model: their status codes,
    the sha of the existing file and the browsable URL come in as parameters. */
module Publish {
  import opened Wrappers

  const Owner := "VeganSindhu"
  const Repo := "admin_upload"
  const TargetPath := "processed_pivot.csv"
  const Branch := "main"
  const CommitMessage := "Admin: update processed pivot"

  const ApiHost := "https://api.github.com/"
  const RawHost := "https://raw.githubusercontent.com/"

  // ---------------------------------------------------------------------------------------
  // Paths

  /** Position of the last "/" in `s`, if any. */
  function LastSlash(s: string): (r: Option<nat>)
    ensures r.None? <==> '/' !in s
    ensures r.Some? ==> r.value < |s| && s[r.value] == '/' && '/' !in s[r.value + 1..]
  {
    if s == [] then None
    else if s[|s| - 1] == '/' then Some(|s| - 1)
    else
      match LastSlash(s[..|s| - 1])
      case None => None
      case Some(i) =>
        assert s[i + 1..] == s[..|s| - 1][i + 1..] + [s[|s| - 1]];
        Some(i)
  }

  /** `s` cut at every "/": undoes joining slash-free parts with "/". */
  function SplitPath(s: string): (r: seq<string>)
    ensures |r| >= 1
    decreases |s|
  {
    match LastSlash(s)
    case None => [s]
    case Some(i) => SplitPath(s[..i]) + [s[i + 1..]]
  }

  /** Appending "/" and a slash-free part adds exactly that part to the cut. */
  lemma SplitSnoc(s: string, last: string)
    requires '/' !in last
    ensures SplitPath(s + "/" + last) == SplitPath(s) + [last]
  {
    var t := s + "/" + last;
    assert t[|s|] == '/';
    assert t[|s| + 1..] == last;
    assert t[..|s|] == s;
    assert LastSlash(t) == Some(|s|);
  }

  /** A slash-free string is cut into itself. */
  lemma SplitSingle(s: string)
    requires '/' !in s
    ensures SplitPath(s) == [s]
  {
  }

  /** The contents-API address of a file. */
  function ContentsUrl(owner: string, repo: string, path: string): (u: string)
    ensures |ApiHost| <= |u| && u[..|ApiHost|] == ApiHost
  {
    ApiHost + "repos" + "/" + owner + "/" + repo + "/" + "contents" + "/" + path
  }

  /** The raw-content address of a file on a branch. */
  function RawContentUrl(owner: string, repo: string, branch: string, path: string): (u: string)
    ensures |RawHost| <= |u| && u[..|RawHost|] == RawHost
  {
    RawHost + owner + "/" + repo + "/" + branch + "/" + path
  }

  /** The raw-content address lists, after the host, owner, repository, branch and path. */
  lemma RawContentUrlParts(owner: string, repo: string, branch: string, path: string)
    requires '/' !in owner && '/' !in repo && '/' !in branch && '/' !in path
    ensures var u := RawContentUrl(owner, repo, branch, path);
      SplitPath(u[|RawHost|..]) == [owner, repo, branch, path]
  {
    var u := RawContentUrl(owner, repo, branch, path);
    assert u[|RawHost|..] == owner + "/" + repo + "/" + branch + "/" + path;
    SplitFour(owner, repo, branch, path);
  }

  /** Four slash-free parts joined by "/" are cut back into the same parts. */
  lemma SplitFour(a: string, b: string, c: string, d: string)
    requires '/' !in a && '/' !in b && '/' !in c && '/' !in d
    ensures SplitPath(a + "/" + b + "/" + c + "/" + d) == [a, b, c, d]
  {
    SplitSingle(a);
    SplitSnoc(a, b);
    SplitSnoc(a + "/" + b, c);
    SplitSnoc(a + "/" + b + "/" + c, d);
  }

  /** Five slash-free parts joined by "/" are cut back into the same parts. */
  lemma SplitFive(a: string, b: string, c: string, d: string, e: string)
    requires '/' !in a && '/' !in b && '/' !in c && '/' !in d && '/' !in e
    ensures SplitPath(a + "/" + b + "/" + c + "/" + d + "/" + e) == [a, b, c, d, e]
  {
    SplitFour(a, b, c, d);
    SplitSnoc(a + "/" + b + "/" + c + "/" + d, e);
  }

  /** The contents-API address lists, after the host, "repos", owner, repository, "contents"
      and the path. */
  lemma ContentsUrlParts(owner: string, repo: string, path: string)
    requires '/' !in owner && '/' !in repo && '/' !in path
    ensures var u := ContentsUrl(owner, repo, path);
      SplitPath(u[|ApiHost|..]) == ["repos", owner, repo, "contents", path]
  {
    var u := ContentsUrl(owner, repo, path);
    assert u[|ApiHost|..] == "repos" + "/" + owner + "/" + repo + "/" + "contents" + "/" + path;
    SplitFive("repos", owner, repo, "contents", path);
  }

  /** `api_base`: the endpoint both the read and the write go to. */
  function ApiBase(): (u: string)
    ensures |ApiHost| <= |u| && u[..|ApiHost|] == ApiHost
  {
    ContentsUrl(Owner, Repo, TargetPath)
  }

  /** `raw_url`: where the published pivot can be fetched from. */
  function RawUrl(): (u: string)
    ensures |RawHost| <= |u| && u[..|RawHost|] == RawHost
  {
    RawContentUrl(Owner, Repo, Branch, TargetPath)
  }

  /** The configured addresses carry the configured owner, repository, branch and path, each
      as one part of the address. */
  lemma ConfiguredUrls()
    ensures SplitPath(ApiBase()[|ApiHost|..]) == ["repos", Owner, Repo, "contents", TargetPath]
    ensures SplitPath(RawUrl()[|RawHost|..]) == [Owner, Repo, Branch, TargetPath]
  {
    assert '/' !in Owner && '/' !in Repo && '/' !in Branch && '/' !in TargetPath;
    ContentsUrlParts(Owner, Repo, TargetPath);
    RawContentUrlParts(Owner, Repo, Branch, TargetPath);
  }

  // ---------------------------------------------------------------------------------------
  // The write

  /** The sha the write carries: the one the read returned, but only after a 200 and only
      when it is a non-empty string; any other read status means "no sha". */
  function ShaToSend(getStatus: int, sha: Option<string>): (r: Option<string>)
    ensures r.Some? <==> getStatus == 200 && sha.Some? && sha.value != ""
    ensures r.Some? ==> r == sha
  {
    if getStatus == 200 then
      match sha
      case Some(s) => if s != "" then Some(s) else None
      case None => None
    else None
  }

  /** The write payload, with the sha added to it only when there is one to send. */
  method BuildPayload(content: string, getStatus: int, sha: Option<string>) returns (payload: map<string, string>)
    ensures payload.Keys == {"message", "content", "branch"} + (if ShaToSend(getStatus, sha).Some? then {"sha"} else {})
    ensures payload["message"] == CommitMessage && payload["content"] == content && payload["branch"] == Branch
    ensures "sha" in payload <==> getStatus == 200 && sha.Some? && sha.value != ""
    ensures "sha" in payload ==> payload["sha"] == sha.value
  {
    var sent := ShaToSend(getStatus, sha);
    payload := map["message" := CommitMessage, "content" := content, "branch" := Branch];
    if sent.Some? {
      payload := payload["sha" := sent.value];
    }
  }

  /** What the run reports after the write. */
  datatype Outcome =
    | Published(htmlUrl: string, rawUrl: string)
    | Failed(status: int, body: string)

  /** A write answered with 200 or 201 is a success and reports both addresses; any other
      status is a failure reported with the status and the response body, unclassified. */
  function PutOutcome(putStatus: int, htmlUrl: string, body: string): (r: Outcome)
    ensures r.Published? <==> putStatus == 200 || putStatus == 201
    ensures r.Published? ==> r.htmlUrl == htmlUrl && r.rawUrl == RawUrl()
    ensures r.Failed? ==> r.status == putStatus && r.body == body
  {
    if putStatus in {200, 201} then Published(htmlUrl, RawUrl()) else Failed(putStatus, body)
  }
}
