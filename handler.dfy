/**
 * The `/otel-finder` command handler, as the ordered list of outward effects
 * it starts: acknowledgements, posts, rejection notices and one search per
 * resolved repository. The replies that follow each search are built by
 * `Messages.AssembleBlocks`.
 */
module Handler {
  import opened Wrappers
  import opened Repos

  const HelpKeyword := "help"
  const RetrievingStatus := "Retrieving issues"
  const Organisation := "open-telemetry"

  /** The search qualifiers: issues only, open ones, with nobody assigned. */
  const IssueFilters := " is:issue state:open no:assignee"

  datatype Effect =
    | Ack(status: Option<string>)          // acknowledge the command, with an optional status text
    | PostHelp                             // the help text, visible to the invoking user only
    | PostHeader                           // the public header and greeting blocks
    | PostRejection(token: string)         // "no label associated for the repo <token>", to the user only
    | Search(repo: string, query: string)  // an issue search for one repository

  /** A label in a template literal: a missing one renders as `undefined`. */
  function LabelText(issueLabel: Option<string>): string {
    match issueLabel
    case Some(l) => l
    case None => "undefined"
  }

  /** The search query for one repository's open, unassigned issues with the label. */
  function SearchQuery(repo: string, issueLabel: Option<string>): (q: string)
    ensures var prefix := "repo:" + Organisation + "/";
      |q| >= |prefix| + |repo| && q[..|prefix|] == prefix && q[|prefix|..|prefix| + |repo|] == repo
    ensures var start := |"repo:" + Organisation + "/"| + |repo|;
      q[start..] == IssueFilters + " label:" + LabelText(issueLabel)
    ensures var suffix := " label:" + LabelText(issueLabel);
      |q| >= |suffix| && q[|q| - |suffix|..] == suffix
  {
    "repo:" + Organisation + "/" + repo + IssueFilters + " label:" + LabelText(issueLabel)
  }

  /** The search started for `repo` when `targets` is the resolved set. */
  function SearchFor(targets: Targets, repo: string): Effect
    requires repo in targets
  {
    Search(repo, SearchQuery(repo, targets[repo]))
  }

  /** The rejection notices, one per rejected token, in order. */
  function Notices(rejected: seq<string>): (notices: seq<Effect>)
    ensures |notices| == |rejected|
    ensures forall i :: 0 <= i < |rejected| ==> notices[i] == PostRejection(rejected[i])
  {
    seq(|rejected|, i requires 0 <= i < |rejected| => PostRejection(rejected[i]))
  }

  /**
   * Starts one search per resolved repository, taking the repositories in
   * whatever order the set yields them.
   */
  method StartSearches(targets: Targets) returns (searches: seq<Effect>)
    ensures |searches| == |targets|
    ensures forall e :: e in searches ==> e.Search? && e.repo in targets && e == SearchFor(targets, e.repo)
    ensures forall repo :: repo in targets ==> SearchFor(targets, repo) in searches
  {
    searches := [];
    var remaining := targets.Keys;
    ghost var started: set<string> := {};
    while remaining != {}
      invariant remaining !! started && remaining + started == targets.Keys
      invariant |searches| == |started|
      invariant forall e :: e in searches ==> e.Search? && e.repo in started && e == SearchFor(targets, e.repo)
      invariant forall repo :: repo in started ==> SearchFor(targets, repo) in searches
      decreases remaining
    {
      var repo :| repo in remaining;
      searches := searches + [SearchFor(targets, repo)];
      remaining := remaining - {repo};
      started := started + {repo};
    }
  }

  /**
   * Handles one command. The text "help" acknowledges and shows the help, and
   * nothing else. Any other text acknowledges with a status, posts the header,
   * posts one notice per rejected token while resolving the repositories, then
   * starts one search per resolved repository, in no particular order.
   */
  method HandleCommand(text: string, registry: Registry) returns (effects: seq<Effect>)
    ensures text == HelpKeyword ==> effects == [Ack(None), PostHelp]
    ensures text != HelpKeyword ==> PostHelp !in effects
    ensures text != HelpKeyword ==>
      var targets, rejected := ResolvedTargets(text, registry), ResolvedRejections(text, registry);
      && |effects| == 2 + |rejected| + |targets|
      && effects[..2] == [Ack(Some(RetrievingStatus)), PostHeader]
      && effects[2..2 + |rejected|] == Notices(rejected)
      && (forall e :: e in effects[2 + |rejected|..] ==> e.Search? && e.repo in targets && e == SearchFor(targets, e.repo))
      && (forall repo :: repo in targets ==> SearchFor(targets, repo) in effects[2 + |rejected|..])
  {
    if text == HelpKeyword {
      return [Ack(None), PostHelp];
    }
    var targets, rejected := ResolveRepos(text, registry);
    var searches := StartSearches(targets);
    var opening := [Ack(Some(RetrievingStatus)), PostHeader];
    var notices := Notices(rejected);
    effects := opening + notices + searches;
    assert effects[..2] == opening;
    assert effects[2..2 + |rejected|] == notices;
    assert effects[2 + |rejected|..] == searches;
    assert PostHelp !in opening && PostHelp !in notices && PostHelp !in searches;
  }
}
