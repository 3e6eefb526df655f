/**
 * The issue formatter: the two indicator choices and the markdown line that
 * shows one issue summary in a repository's reply.
 */
module Formatter {
  import opened Text
  import opened Issues

  const MsPerDay: int := 86_400_000

  /** How many days back an issue still counts as new. */
  const NewIssueWindowDays: int := 30

  const NewIssueMarker := ":new-issue:"
  const TierHigh := ":thisisfine:"
  const TierMedium := ":fire::fire:"
  const TierLow := ":fire:"

  /**
   * The new-issue indicator. `now` and `createdAt` are milliseconds since the
   * epoch; the cut-off is `now` minus thirty whole days, and only an issue
   * created strictly after it is marked.
   */
  function NewIssueEmoji(createdAt: int, now: int): (r: string)
    ensures r == NewIssueMarker <==> createdAt > now - NewIssueWindowDays * MsPerDay
    ensures r != NewIssueMarker ==> r == ""
  {
    if createdAt > now - NewIssueWindowDays * MsPerDay then NewIssueMarker else ""
  }

  /**
   * The interaction indicator: the first threshold reached, from the top
   * (50, 15, 5), picks the tier. `NaN` fails every comparison and gets none.
   */
  function InteractionsEmoji(interactions: Interactions): (r: string)
    ensures interactions.NaN? ==> r == ""
    ensures interactions.Count? ==> (r == TierHigh <==> interactions.n >= 50)
    ensures interactions.Count? ==> (r == TierMedium <==> 15 <= interactions.n < 50)
    ensures interactions.Count? ==> (r == TierLow <==> 5 <= interactions.n < 15)
    ensures interactions.Count? ==> (r == "" <==> interactions.n < 5)
  {
    match interactions
    case NaN => ""
    case Count(n) =>
      if n >= 50 then TierHigh
      else if n >= 15 then TierMedium
      else if n >= 5 then TierLow
      else ""
  }

  /** The order of the tiers: no indicator, one fire, two fires, the top tier. */
  function TierRank(emoji: string): nat {
    if emoji == TierHigh then 3
    else if emoji == TierMedium then 2
    else if emoji == TierLow then 1
    else 0
  }

  /** The interaction thresholds, lowest first. */
  const Thresholds: seq<nat> := [5, 15, 50]

  /** How many of `thresholds` the count `n` reaches. */
  function ThresholdsReached(n: nat, thresholds: seq<nat>): nat {
    if thresholds == [] then 0
    else (if n >= thresholds[0] then 1 else 0) + ThresholdsReached(n, thresholds[1..])
  }

  lemma {:induction false} ThresholdsReachedMonotone(a: nat, b: nat, thresholds: seq<nat>)
    requires a <= b
    ensures ThresholdsReached(a, thresholds) <= ThresholdsReached(b, thresholds)
  {
    if thresholds != [] {
      ThresholdsReachedMonotone(a, b, thresholds[1..]);
    }
  }

  /** The tier of a count is the number of thresholds it reaches. */
  lemma TierIsThresholdsReached(n: nat)
    ensures TierRank(InteractionsEmoji(Count(n))) == ThresholdsReached(n, Thresholds)
  {
    assert Thresholds[1..] == [15, 50] && [15, 50][1..] == [50] && [50][1..] == [];
    assert ThresholdsReached(n, [50]) == if n >= 50 then 1 else 0;
    assert ThresholdsReached(n, [15, 50]) == (if n >= 15 then 1 else 0) + ThresholdsReached(n, [50]);
    assert ThresholdsReached(n, Thresholds) == (if n >= 5 then 1 else 0) + ThresholdsReached(n, [15, 50]);
  }

  /** More interactions never give a lower tier. */
  lemma TierMonotone(a: nat, b: nat)
    requires a <= b
    ensures TierRank(InteractionsEmoji(Count(a))) <= TierRank(InteractionsEmoji(Count(b)))
  {
    TierIsThresholdsReached(a);
    TierIsThresholdsReached(b);
    ThresholdsReachedMonotone(a, b, Thresholds);
  }

  /** `${issue.interactions}`: the count in decimal, or the text `NaN`. */
  function InteractionsText(interactions: Interactions): (r: string)
    ensures interactions.Count? ==> (forall i :: 0 <= i < |r| ==> IsDigit(r[i])) && DecimalValue(r) == interactions.n
    ensures interactions.NaN? ==> r == "NaN"
  {
    match interactions
    case Count(n) => DecimalRoundTrip(n); NatToDecimal(n)
    case NaN => "NaN"
  }

  /**
   * The markdown line for one issue: a list item linking the title to the url,
   * the creation date with the new-issue indicator, and the interaction count
   * with its tier indicator. `renderDate` stands for the locale-dependent
   * "<month> <day>, <year>" rendering of the creation time.
   */
  function FormatIssue(issue: IssueSummary, now: int, renderDate: int -> string): (r: string)
    ensures |r| >= 3 && r[..3] == "- ["
  {
    Concat(IssuePieces(issue, now, renderDate))
  }

  /** The pieces of the template literal `FormatIssue` fills in. */
  function IssuePieces(issue: IssueSummary, now: int, renderDate: int -> string): seq<string> {
    [ "- [", issue.title, "](", issue.url, ") \n    Created: ",
      renderDate(issue.createdAt), " ", NewIssueEmoji(issue.createdAt, now),
      "\n    Interactions: ", InteractionsText(issue.interactions), " ",
      InteractionsEmoji(issue.interactions) ]
  }

  /**
   * The line shows the title linked to the url as `[title](url)`, the creation
   * date, the new-issue indicator, the interaction count and its tier indicator.
   */
  lemma FormatIssueShows(issue: IssueSummary, now: int, renderDate: int -> string)
    ensures var r := FormatIssue(issue, now, renderDate);
      && Contains(r, "[" + issue.title + "](" + issue.url + ")")
      && Contains(r, issue.title)
      && Contains(r, issue.url)
      && Contains(r, renderDate(issue.createdAt))
      && Contains(r, NewIssueEmoji(issue.createdAt, now))
      && Contains(r, InteractionsText(issue.interactions))
      && Contains(r, InteractionsEmoji(issue.interactions))
  {
    var pieces := IssuePieces(issue, now, renderDate);
    ConcatContainsPiece(pieces, 1);
    ConcatContainsPiece(pieces, 3);
    ConcatContainsPiece(pieces, 5);
    ConcatContainsPiece(pieces, 7);
    ConcatContainsPiece(pieces, 9);
    ConcatContainsPiece(pieces, 11);
    FormatIssueLinksTitle(issue, now, renderDate);
  }

  /** The line opens with the list marker followed by the markdown link `[title](url)`. */
  lemma FormatIssueLinksTitle(issue: IssueSummary, now: int, renderDate: int -> string)
    ensures OccursAt("[" + issue.title + "](" + issue.url + ")", FormatIssue(issue, now, renderDate), 2)
  {
    var pieces := IssuePieces(issue, now, renderDate);
    var head := pieces[..5];
    var link := "[" + issue.title + "](" + issue.url + ")";
    assert pieces == head + pieces[5..];
    ConcatAppend(head, pieces[5..]);
    assert Concat(head) == "- [" + issue.title + "](" + issue.url + ") \n    Created: " by {
      assert head == ["- [", issue.title, "](", issue.url, ") \n    Created: "];
      assert Concat(head[4..]) == ") \n    Created: " by {
        assert head[4..][1..] == [];
      }
      assert head[3..][1..] == head[4..];
      assert head[2..][1..] == head[3..];
      assert head[1..][1..] == head[2..];
      assert Concat(head[3..]) == issue.url + ") \n    Created: ";
      assert Concat(head[2..]) == "](" + issue.url + ") \n    Created: ";
      assert Concat(head[1..]) == issue.title + "](" + issue.url + ") \n    Created: ";
    }
    var r := FormatIssue(issue, now, renderDate);
    assert Concat(head) == "- " + link + " \n    Created: ";
    assert r[2..2 + |link|] == link;
  }

  /** An issue created at `now` with 60 interactions shows the new-issue indicator and the top tier. */
  lemma FreshBusyIssueShowsBothIndicators(issue: IssueSummary, now: int, renderDate: int -> string)
    requires issue.createdAt == now && issue.interactions == Count(60)
    ensures Contains(FormatIssue(issue, now, renderDate), NewIssueMarker)
    ensures Contains(FormatIssue(issue, now, renderDate), TierHigh)
  {
    FormatIssueShows(issue, now, renderDate);
  }

  /** An issue created 90 days ago with 2 interactions gets neither indicator. */
  lemma OldQuietIssueShowsNoIndicator(issue: IssueSummary, now: int)
    requires issue.createdAt == now - 90 * MsPerDay && issue.interactions == Count(2)
    ensures NewIssueEmoji(issue.createdAt, now) == ""
    ensures InteractionsEmoji(issue.interactions) == ""
  {
  }
}
