/**
 * The search client adapter's normalisation step: the items of one search
 * response become at most `MaxIssues` issue summaries, in response order.
 */
module Issues {
  import opened Wrappers

  /** The most summaries kept per repository; later items of the response are dropped. */
  const MaxIssues: nat := 30

  /**
   * An issue's interaction count as JavaScript computes it: a number, or `NaN`
   * when the reaction total is missing (`n + undefined`).
   */
  datatype Interactions = Count(n: nat) | NaN

  /**
   * The fields of one search result item that the bot reads. `createdAt` is the
   * creation time in milliseconds since the epoch; `reactionTotal` is
   * `reactions?.total_count`, `None` when either is absent.
   */
  datatype ApiItem = ApiItem(
    htmlUrl: string,
    title: string,
    createdAt: int,
    comments: nat,
    reactionTotal: Option<nat>)

  /** The record the bot keeps for one issue. */
  datatype IssueSummary = IssueSummary(
    url: string,
    title: string,
    createdAt: int,
    interactions: Interactions)

  function Min(a: nat, b: nat): nat {
    if a <= b then a else b
  }

  /** One item's summary: url, title and creation time copied, comments and reactions added up. */
  function Summarise(item: ApiItem): (s: IssueSummary)
    ensures s.url == item.htmlUrl && s.title == item.title && s.createdAt == item.createdAt
    ensures s.interactions.Count? <==> item.reactionTotal.Some?
    ensures s.interactions.Count? ==> s.interactions.n == item.comments + item.reactionTotal.value
  {
    IssueSummary(
      item.htmlUrl,
      item.title,
      item.createdAt,
      match item.reactionTotal
      case Some(total) => Count(item.comments + total)
      case None => NaN)
  }

  /** The summaries of the first `MaxIssues` items, in response order. */
  function Normalised(items: seq<ApiItem>): (list: seq<IssueSummary>)
  {
    seq(Min(MaxIssues, |items|), i requires 0 <= i < Min(MaxIssues, |items|) => Summarise(items[i]))
  }

  /**
   * The loop over the response items: every item is visited, but once the list
   * holds `MaxIssues` summaries nothing more is appended.
   */
  method Normalise(items: seq<ApiItem>) returns (list: seq<IssueSummary>)
    ensures |list| == Min(MaxIssues, |items|)
    ensures forall i :: 0 <= i < |list| ==> list[i] == Summarise(items[i])
    ensures list == Normalised(items)
  {
    list := [];
    for k := 0 to |items|
      invariant |list| == Min(MaxIssues, k)
      invariant forall i :: 0 <= i < |list| ==> list[i] == Summarise(items[i])
    {
      if |list| >= MaxIssues {
        continue;
      }
      list := list + [Summarise(items[k])];
    }
  }

  /** Items after the first `MaxIssues` never reach the list. */
  lemma NormalisedIgnoresTail(items: seq<ApiItem>, more: seq<ApiItem>)
    requires |items| >= MaxIssues
    ensures Normalised(items + more) == Normalised(items)
  {
  }

  /** Receiving more items only extends the list: the old list is a prefix of the new one. */
  lemma NormalisedIsPrefix(items: seq<ApiItem>, more: seq<ApiItem>)
    ensures Normalised(items) <= Normalised(items + more)
  {
  }
}
