/**
 * The reply posted for one repository once its search completes: a header,
 * the issue lines (or a placeholder), and a divider.
 */
module Messages {
  import opened Issues
  import opened Formatter

  /** The chat blocks a reply is made of. */
  datatype Block = Header(text: string) | Markdown(text: string) | Divider

  const NoIssuesText := "_No issues found for this repo_"

  function HeaderText(repo: string): string {
    ":opentelemetry: " + repo + " :opentelemetry:"
  }

  /**
   * Builds the block list: the header naming the repository, one markdown block
   * per issue in list order, the placeholder when there is no issue, and a
   * closing divider.
   */
  method AssembleBlocks(repo: string, issues: seq<IssueSummary>, now: int, renderDate: int -> string)
    returns (blocks: seq<Block>)
    ensures |blocks| == (if |issues| == 0 then 1 else |issues|) + 2
    ensures blocks[0] == Header(HeaderText(repo))
    ensures blocks[|blocks| - 1] == Divider
    ensures forall i :: 0 <= i < |issues| ==> blocks[i + 1] == Markdown(FormatIssue(issues[i], now, renderDate))
    ensures |issues| == 0 ==> blocks[1] == Markdown(NoIssuesText)
    ensures Markdown(NoIssuesText) in blocks <==> |issues| == 0
  {
    blocks := [Header(HeaderText(repo))];
    for k := 0 to |issues|
      invariant |blocks| == k + 1
      invariant blocks[0] == Header(HeaderText(repo))
      invariant forall i :: 0 <= i < k ==> blocks[i + 1] == Markdown(FormatIssue(issues[i], now, renderDate))
    {
      blocks := blocks + [Markdown(FormatIssue(issues[k], now, renderDate))];
    }
    if |issues| == 0 {
      blocks := blocks + [Markdown(NoIssuesText)];
    }
    blocks := blocks + [Divider];
    if |issues| > 0 {
      // every issue line is a list item, which the placeholder is not
      forall j | 1 <= j <= |issues| ensures blocks[j] != Markdown(NoIssuesText) {
        var line := FormatIssue(issues[j - 1], now, renderDate);
        assert line[0] == line[..3][0] == '-';
        assert NoIssuesText[0] == '_';
      }
    }
  }

  /**
   * What one repository's search leads to: the response items are normalised
   * and the reply blocks are built from the resulting list.
   */
  method ReplyForRepo(repo: string, items: seq<ApiItem>, now: int, renderDate: int -> string)
    returns (blocks: seq<Block>)
    ensures var n := Min(MaxIssues, |items|);
      && |blocks| == (if n == 0 then 1 else n) + 2
      && blocks[0] == Header(HeaderText(repo))
      && blocks[|blocks| - 1] == Divider
      && (forall i :: 0 <= i < n ==> blocks[i + 1] == Markdown(FormatIssue(Summarise(items[i]), now, renderDate)))
      && (Markdown(NoIssuesText) in blocks <==> items == [])
  {
    var issues := Normalise(items);
    blocks := AssembleBlocks(repo, issues, now, renderDate);
  }
}
