/**
 * The pure rules of a repository panel: which GitHub repository the
 * `git remote -v` output names, which issues and pull requests are shown
 * and how their rows read, and how the last-commit line is laid out.
 */
module Git {
  import opened Wrappers
  import opened Strings
  import Digits

  // ---------------------------------------------------------------------
  // Remote parsing: the leftmost match of
  //   origin[^@]*@github.com:([^/]*)/([^ ]*)
  // in the output of `git remote -v`.

  /** The two capture groups of a match: owner and raw repository path. */
  datatype Hit = Hit(owner: string, path: string)

  datatype Remote = Remote(owner: string, repo: string)

  /**
   * The pattern matches from index i, with its '@' at index at, its '/'
   * at index slash and the second group ending at index end: these are
   * the only positions the pattern's greedy classes allow.
   */
  ghost predicate MatchesWith(s: string, i: int, at: int, slash: int, end: int) {
    && 0 <= i && i + 6 <= at && at + 12 <= slash < end <= |s|
    && s[i..i + 6] == "origin"
    && (forall k :: i + 6 <= k < at ==> s[k] != '@')
    && s[at..at + 7] == "@github" && s[at + 7] != '\n' && s[at + 8..at + 12] == "com:"
    && (forall k :: at + 12 <= k < slash ==> s[k] != '/')
    && s[slash] == '/'
    && (forall k :: slash < k < end ==> s[k] != ' ')
    && (end == |s| || s[end] == ' ')
  }

  /** Runs the pattern anchored at index i. */
  function MatchAt(s: string, i: nat): Option<Hit> {
    if i + 6 <= |s| && s[i..i + 6] == "origin" then
      var at := IndexOf(s, '@', i + 6);
      if at + 12 <= |s| && s[at..at + 7] == "@github" && s[at + 7] != '\n'
         && s[at + 8..at + 12] == "com:" then
        var slash := IndexOf(s, '/', at + 12);
        if slash < |s| then
          var end := IndexOf(s, ' ', slash + 1);
          Some(Hit(s[at + 12..slash], s[slash + 1..end]))
        else None
      else None
    else None
  }

  /** Whatever MatchAt returns is a match of the pattern at i. */
  lemma MatchAtSound(s: string, i: nat)
    requires MatchAt(s, i).Some?
    ensures exists at, slash, end ::
      (MatchesWith(s, i, at, slash, end) && MatchAt(s, i).value == Hit(s[at + 12..slash], s[slash + 1..end]))
  {
    var at := IndexOf(s, '@', i + 6);
    assert at + 12 <= |s| && s[at..at + 7] == "@github";
    var slash := IndexOf(s, '/', at + 12);
    assert slash < |s|;
    var end := IndexOf(s, ' ', slash + 1);
    assert MatchesWith(s, i, at, slash, end);
  }

  /** A match of the pattern at i is found by MatchAt, with the same groups. */
  lemma MatchAtComplete(s: string, i: nat, at: int, slash: int, end: int)
    requires MatchesWith(s, i, at, slash, end)
    ensures MatchAt(s, i) == Some(Hit(s[at + 12..slash], s[slash + 1..end]))
  {
    assert s[at] == '@' by { assert s[at..at + 7][0] == '@'; }
    assert IndexOf(s, '@', i + 6) == at;
    assert IndexOf(s, '/', at + 12) == slash;
    assert IndexOf(s, ' ', slash + 1) == end;
  }

  /** The first index at or after from where the pattern matches. */
  function Leftmost(s: string, from: nat): (r: Option<nat>)
    ensures r.Some? ==> from <= r.value < |s| && MatchAt(s, r.value).Some?
    ensures r.Some? ==> forall j :: from <= j < r.value ==> MatchAt(s, j).None?
    ensures r.None? ==> forall j :: from <= j ==> MatchAt(s, j).None?
    decreases |s| - from
  {
    if from >= |s| then None
    else if MatchAt(s, from).Some? then Some(from)
    else Leftmost(s, from + 1)
  }

  /**
   * The parsing half of githubInfo: the owner and the repository (one
   * ".git" suffix trimmed) of the leftmost match, or an error naming the
   * path when there is none.
   */
  function GithubInfo(out: string, path: string): (r: Result<Remote, string>)
    ensures r.Success? <==> exists i :: MatchAt(out, i).Some?
    ensures r.Failure? ==> r.error == "Is not github project: " + path
  {
    match Leftmost(out, 0)
    case Some(i) =>
      var h := MatchAt(out, i).value;
      Success(Remote(h.owner, TrimSuffix(h.path, ".git")))
    case None => Failure("Is not github project: " + path)
  }

  /**
   * On success the owner and repository are the groups of a match: the
   * owner holds no '/', and the repository is the run after the '/' with
   * at most one ".git" dropped, so it holds no ' '.
   */
  lemma GithubInfoGroups(out: string, path: string)
    requires Leftmost(out, 0).Some?
    ensures GithubInfo(out, path).Success?
    ensures '/' !in GithubInfo(out, path).value.owner
    ensures ' ' !in GithubInfo(out, path).value.repo
    ensures exists i, at, slash, end ::
      (MatchesWith(out, i, at, slash, end)
       && GithubInfo(out, path).value.owner == out[at + 12..slash]
       && TrimSuffix(out[slash + 1..end], ".git") == GithubInfo(out, path).value.repo)
  {
    var i := Leftmost(out, 0).value;
    MatchAtSound(out, i);
    var at, slash, end :| MatchesWith(out, i, at, slash, end)
      && MatchAt(out, i).value == Hit(out[at + 12..slash], out[slash + 1..end]);
    GroupsFree(out, i, at, slash, end);
    var run := out[slash + 1..end];
    var repo := GithubInfo(out, path).value.repo;
    assert ' ' !in repo by {
      forall k | 0 <= k < |repo| ensures repo[k] != ' ' {
        assert repo[k] == run[k];
      }
    }
  }

  /** The owner group holds no '/' and the path group no ' '. */
  lemma GroupsFree(s: string, i: int, at: int, slash: int, end: int)
    requires MatchesWith(s, i, at, slash, end)
    ensures '/' !in s[at + 12..slash] && ' ' !in s[slash + 1..end]
  {
  }

  /** The leftmost match wins: a match later in the output is never used. */
  lemma GithubInfoLeftmost(out: string, path: string, i: nat, at: int, slash: int, end: int)
    requires MatchesWith(out, i, at, slash, end)
    requires forall j :: 0 <= j < i ==> MatchAt(out, j).None?
    ensures GithubInfo(out, path) == Success(Remote(out[at + 12..slash], TrimSuffix(out[slash + 1..end], ".git")))
  {
    MatchAtComplete(out, i, at, slash, end);
    var r := Leftmost(out, 0);
    assert r == Some(i);
  }

  /**
   * A remote line "origin<gap>@github.com:<owner>/<repo>.git<rest>", as
   * `git remote -v` prints an SSH remote, names that owner and repository.
   */
  lemma SshRemoteLine(gap: string, owner: string, repo: string, rest: string, path: string)
    requires '@' !in gap && '/' !in owner && ' ' !in repo
    requires rest == [] || rest[0] == ' '
    ensures GithubInfo("origin" + gap + "@github.com:" + owner + "/" + repo + ".git" + rest, path)
      == Success(Remote(owner, repo))
  {
    var s := "origin" + gap + "@github.com:" + owner + "/" + repo + ".git" + rest;
    var at := 6 + |gap|;
    var slash := at + 12 + |owner|;
    var end := slash + 1 + |repo| + 4;
    SshLineMatches(gap, owner, repo, rest);
    GithubInfoLeftmost(s, path, 0, at, slash, end);
    assert TrimSuffix(repo + ".git", ".git") == repo;
  }

  /** Where the pattern's parts sit in an ssh remote line. */
  lemma SshLineMatches(gap: string, owner: string, repo: string, rest: string)
    requires '@' !in gap && '/' !in owner && ' ' !in repo
    requires rest == [] || rest[0] == ' '
    ensures var s := "origin" + gap + "@github.com:" + owner + "/" + repo + ".git" + rest;
      var at := 6 + |gap|;
      var slash := at + 12 + |owner|;
      var end := slash + 1 + |repo| + 4;
      MatchesWith(s, 0, at, slash, end) && s[at + 12..slash] == owner && s[slash + 1..end] == repo + ".git"
  {
  }

  // ---------------------------------------------------------------------
  // Issue and pull-request boxes.

  /** An issue as the API returns it; isPullRequest is "PullRequestLinks is set". */
  datatype Issue = Issue(number: int, title: string, login: string, isPullRequest: bool)

  datatype PullRequest = PullRequest(number: int, title: string, login: string)

  /** A row of labels, left to right. */
  datatype Row = Row(labels: seq<string>)

  /** A titled, bordered box of rows. */
  datatype Section = Section(title: string, rows: seq<Row>)

  /** The "#number  title  <login>" row shared by issues and pull requests. */
  function Headline(number: int, title: string, login: string): Row {
    Row(["#" + Digits.Signed(number), title, "<" + login + ">"])
  }

  /**
   * The headline has three labels: '#' and a number that reads back as the
   * issue number (after a '-' when it is negative), the title, and the
   * login in angle brackets.
   */
  lemma HeadlineFields(number: int, title: string, login: string)
    ensures var r := Headline(number, title, login);
      |r.labels| == 3 && |r.labels[0]| >= 2 && r.labels[0][0] == '#'
      && (number >= 0 ==> Digits.AllDigits(r.labels[0][1..]) && Digits.Value(r.labels[0][1..]) == number)
      && (number < 0 ==>
            r.labels[0][1] == '-' && Digits.AllDigits(r.labels[0][2..]) && Digits.Value(r.labels[0][2..]) == -number)
      && r.labels[1] == title && r.labels[2] == "<" + login + ">"
  {
    var n := Digits.Signed(number);
    Digits.ValueOfDecimal(if number < 0 then -number else number);
    assert ("#" + n)[1..] == n;
    assert number < 0 ==> ("#" + n)[2..] == Digits.Decimal(-number);
  }

  /** The issues that are not pull requests, in received order. */
  function PlainIssues(issues: seq<Issue>): (r: seq<Issue>)
    ensures |r| <= |issues|
    ensures forall i :: 0 <= i < |r| ==> !r[i].isPullRequest
    ensures forall x :: x in issues && !x.isPullRequest ==> x in r
    ensures forall x :: x in r ==> x in issues
  {
    if issues == [] then []
    else
      var last := issues[|issues| - 1];
      PlainIssues(issues[..|issues| - 1]) + (if last.isPullRequest then [] else [last])
  }

  /** Keeping plain issues distributes over concatenation, so order is kept. */
  lemma {:induction false} PlainIssuesAppend(a: seq<Issue>, b: seq<Issue>)
    ensures PlainIssues(a + b) == PlainIssues(a) + PlainIssues(b)
    decreases |b|
  {
    if b != [] {
      var b' := b[..|b| - 1];
      assert (a + b)[..|a + b| - 1] == a + b';
      PlainIssuesAppend(a, b');
    } else {
      assert a + b == a;
    }
  }

  /** One headline row per issue, in order. */
  function IssueRows(xs: seq<Issue>): (r: seq<Row>)
    ensures |r| == |xs|
    ensures forall i :: 0 <= i < |xs| ==> r[i] == Headline(xs[i].number, xs[i].title, xs[i].login)
  {
    if xs == [] then []
    else IssueRows(xs[..|xs| - 1]) + [Headline(xs[|xs| - 1].number, xs[|xs| - 1].title, xs[|xs| - 1].login)]
  }

  /** Appending an issue appends its headline row. */
  lemma IssueRowsSnoc(xs: seq<Issue>, x: Issue)
    ensures IssueRows(xs + [x]) == IssueRows(xs) + [Headline(x.number, x.title, x.login)]
  {
  }

  /** The issues addIssues shows: the first five plain issues. */
  function ShownIssues(issues: seq<Issue>): (r: seq<Issue>)
    ensures |r| <= 5
    ensures |r| == if |PlainIssues(issues)| < 5 then |PlainIssues(issues)| else 5
    ensures r == PlainIssues(issues)[..|r|]
  {
    var p := PlainIssues(issues);
    if |p| <= 5 then p else p[..5]
  }

  /** Receiving one more issue shows it exactly when it is plain and fewer than five are shown. */
  lemma ShownStep(prefix: seq<Issue>, x: Issue)
    ensures ShownIssues(prefix + [x]) ==
      if |ShownIssues(prefix)| < 5 && !x.isPullRequest then ShownIssues(prefix) + [x] else ShownIssues(prefix)
  {
    var p := PlainIssues(prefix);
    assert (prefix + [x])[..|prefix|] == prefix;
    assert PlainIssues(prefix + [x]) == p + (if x.isPullRequest then [] else [x]);
    if |p| >= 5 {
      assert (p + [x])[..5] == p[..5];
    }
  }

  /**
   * addIssues: when any issue came back, a "Last Issues" box (possibly
   * empty) whose rows are the first five plain issues, in order.
   */
  method AddIssues(issues: seq<Issue>) returns (box: Option<Section>)
    ensures box.Some? <==> |issues| > 0
    ensures box.Some? ==> box.value.title == "Last Issues"
    ensures box.Some? ==> box.value.rows == IssueRows(ShownIssues(issues))
  {
    box := None;
    if |issues| > 0 {
      var rows: seq<Row> := [];
      var c := 0;
      for k := 0 to |issues|
        invariant rows == IssueRows(ShownIssues(issues[..k]))
        invariant c == |rows|
      {
        var pr := issues[k];
        assert issues[..k + 1] == issues[..k] + [pr];
        ShownStep(issues[..k], pr);
        if c < 5 {
          if !pr.isPullRequest {
            IssueRowsSnoc(ShownIssues(issues[..k]), pr);
            rows := rows + [Headline(pr.number, pr.title, pr.login)];
            c := c + 1;
          }
        }
      }
      assert issues[..|issues|] == issues;
      box := Some(Section("Last Issues", rows));
    }
  }

  /**
   * addPrs: when any pull request came back, a "Last PRs" box with one
   * row per pull request, in order.
   */
  method AddPrs(prs: seq<PullRequest>) returns (box: Option<Section>)
    ensures box.Some? <==> |prs| > 0
    ensures box.Some? ==> box.value.title == "Last PRs"
    ensures box.Some? ==>
      |box.value.rows| == |prs|
      && forall i :: 0 <= i < |prs| ==> box.value.rows[i] == Headline(prs[i].number, prs[i].title, prs[i].login)
  {
    box := None;
    if |prs| > 0 {
      var rows: seq<Row> := [];
      for k := 0 to |prs|
        invariant |rows| == k
        invariant forall i :: 0 <= i < k ==> rows[i] == Headline(prs[i].number, prs[i].title, prs[i].login)
      {
        rows := rows + [Headline(prs[k].number, prs[k].title, prs[k].login)];
      }
      box := Some(Section("Last PRs", rows));
    }
  }

  // ---------------------------------------------------------------------
  // The last-commit box.

  /** A log line has the four ";;"-separated fields the row reads. */
  predicate HasFields(line: string) {
    |Split(line, ";;")| >= 4
  }

  /** The row for one log line: hash, subject, "(date)", "<author>". */
  function LogRow(line: string): (r: Row)
    requires HasFields(line)
    ensures |r.labels| == 4
    ensures Free(r.labels[0], ";;") && Free(r.labels[1], ";;")
    ensures |r.labels[2]| >= 2 && r.labels[2][0] == '(' && r.labels[2][|r.labels[2]| - 1] == ')'
    ensures |r.labels[3]| >= 2 && r.labels[3][0] == '<' && r.labels[3][|r.labels[3]| - 1] == '>'
    ensures |Split(line, ";;")| == 4 ==>
      line == Join([r.labels[0], r.labels[1], r.labels[2][1..|r.labels[2]| - 1], r.labels[3][1..|r.labels[3]| - 1]], ";;")
  {
    var c := Split(line, ";;");
    var date, author := "(" + c[2] + ")", "<" + c[3] + ">";
    assert date[1..|date| - 1] == c[2];
    assert author[1..|author| - 1] == c[3];
    assert |c| == 4 ==> c == [c[0], c[1], c[2], c[3]];
    Row([c[0], c[1], date, author])
  }

  /**
   * A line printed with the format "%h;;%s;;%cr;;%an" whose fields hold
   * no ';' gives back its four fields.
   */
  lemma LogRowOfFields(h: string, subject: string, date: string, author: string)
    requires ';' !in h && ';' !in subject && ';' !in date && ';' !in author
    ensures HasFields(Join([h, subject, date, author], ";;"))
    ensures LogRow(Join([h, subject, date, author], ";;"))
      == Row([h, subject, "(" + date + ")", "<" + author + ">"])
  {
    SplitJoin([h, subject, date, author], ";;");
  }

  /**
   * addLog: a "Currently on <branch>" box with one row per line of the
   * log output, in order.
   */
  method AddLog(branch: string, out: string) returns (box: Section)
    requires forall line :: line in Split(out, "\n") ==> HasFields(line)
    ensures box.title == "Currently on " + branch
    ensures |box.rows| == |Split(out, "\n")|
    ensures forall i :: 0 <= i < |box.rows| ==> box.rows[i] == LogRow(Split(out, "\n")[i])
  {
    var lines := Split(out, "\n");
    var rows: seq<Row> := [];
    for k := 0 to |lines|
      invariant |rows| == k
      invariant forall i :: 0 <= i < k ==> rows[i] == LogRow(lines[i])
    {
      assert lines[k] in lines;
      var c := Split(lines[k], ";;");
      rows := rows + [Row([c[0], c[1], "(" + c[2] + ")", "<" + c[3] + ">"])];
    }
    box := Section("Currently on " + branch, rows);
  }
}
