/**
 * `replace_section` and `update_readme` of update_readme.py: the commits
 * block is put between the START and END markers of the README, or appended
 * when the markers are missing. Reading and writing README.md is left to the
 * caller; `UpdateReadme` returns the text to write, or `None` when the
 * program would not write.
 */
module ReadmeSection {
  import opened Wrappers
  import opened Strings
  import opened CommitLog
  import opened CommitTable

  /** The heading line and the blank line after it: the start of every block. */
  const Lead: string := Heading + "\n\n"

  /** `replace_section` as written. */
  function ReplaceSection(readme: string, block: string): (r: string)
    ensures exists i :: OccursAt(r, block, i)
  {
    var start := Find(readme, StartMarker);
    var end := Find(readme, EndMarker);
    if start != -1 && end != -1 && end > start then
      var r := readme[..start] + block + readme[end + |EndMarker|..];
      assert OccursAt(r, block, start);
      r
    else if Contains(readme, Heading) then
      var r := RStrip(readme) + "\n\n" + block + "\n";
      assert OccursAt(r, block, |RStrip(readme)| + 2);
      r
    else
      var r := RStrip(readme) + "\n\n" + block + "\n";
      assert OccursAt(r, block, |RStrip(readme)| + 2);
      r
  }

  /**
   * `replace_section` as intended: the text before the START marker loses
   * the heading and blank line that the previous block put there, since the
   * new block brings its own.
   */
  function ReplaceSectionFixed(readme: string, block: string): (r: string)
    ensures exists i :: OccursAt(r, block, i)
  {
    var start := Find(readme, StartMarker);
    var end := Find(readme, EndMarker);
    if start != -1 && end != -1 && end > start then
      var prefix := readme[..start];
      var kept :=
        if |prefix| >= |Lead| && prefix[|prefix| - |Lead|..] == Lead
        then prefix[..|prefix| - |Lead|] else prefix;
      var r := kept + block + readme[end + |EndMarker|..];
      assert OccursAt(r, block, |kept|);
      r
    else
      var r := RStrip(readme) + "\n\n" + block + "\n";
      assert OccursAt(r, block, |RStrip(readme)| + 2);
      r
  }

  /** The text before a section holds neither marker. */
  predicate Unmarked(p: string)
  {
    !Contains(p, StartMarker) && !Contains(p, EndMarker)
  }

  lemma BlockHead(commits: seq<Commit>, repo: string, ts: string)
    ensures |TableText(commits, repo, ts)| > 0
    ensures TableText(commits, repo, ts)[0] !in StartMarker
    ensures TableText(commits, repo, ts)[0] !in EndMarker
  {
    TableTextLayout(commits, repo, ts);
    assert TableText(commits, repo, ts)[0] == '#';
  }

  /**
   * In a README holding a block between text without markers, `find` locates
   * the block's own markers: START after the heading, END at the block's end.
   */
  lemma SectionMarkers(p: string, commits: seq<Commit>, repo: string, ts: string, s: string)
    requires Unmarked(p) && CleanFields(commits, repo, ts)
    ensures Find(p + TableText(commits, repo, ts) + s, StartMarker) == |p| + |Lead|
    ensures Find(p + TableText(commits, repo, ts) + s, EndMarker)
      == |p| + |TableText(commits, repo, ts)| - |EndMarker|
  {
    var t := TableText(commits, repo, ts);
    BlockHead(commits, repo, ts);
    BlockStart(commits, repo, ts);
    BlockEnd(commits, repo, ts);
    FirstAtFrame(p, t, s, StartMarker, |Lead|);
    FirstAtFrame(p, t, s, EndMarker, |t| - |EndMarker|);
  }

  /** The README cut around a block: what precedes its START marker and what follows its END marker. */
  lemma SectionCut(p: string, commits: seq<Commit>, repo: string, ts: string, s: string)
    ensures |TableText(commits, repo, ts)| > |Lead| + |EndMarker|
    ensures TableText(commits, repo, ts)[..|Lead|] == Lead
    ensures (p + TableText(commits, repo, ts) + s)[..|p| + |Lead|] == p + Lead
    ensures (p + TableText(commits, repo, ts) + s)[|p| + |TableText(commits, repo, ts)|..] == s
  {
    var t := TableText(commits, repo, ts);
    TableTextLayout(commits, repo, ts);
    assert |t| == |Lead| + |StartMarker| + |MiddleText(commits, repo, ts)| + |EndMarker|;
    assert t[..|Lead|] == Lead;
    assert (p + t + s)[..|p| + |Lead|] == p + t[..|Lead|];
  }

  /**
   * As written, refreshing a section keeps the old heading: the result has
   * the heading and blank line of the old block in front of the new block.
   */
  lemma ReplaceSectionKeepsOldHeading(p: string, commits: seq<Commit>, repo: string, ts: string,
                                      s: string, block: string)
    requires Unmarked(p) && CleanFields(commits, repo, ts)
    ensures ReplaceSection(p + TableText(commits, repo, ts) + s, block) == p + Lead + block + s
  {
    var t := TableText(commits, repo, ts);
    var readme := p + t + s;
    SectionMarkers(p, commits, repo, ts, s);
    SectionCut(p, commits, repo, ts, s);
    var start := Find(readme, StartMarker);
    var end := Find(readme, EndMarker);
    assert start == |p| + |Lead| && end == |p| + |t| - |EndMarker|;
    assert readme[..start] == p + Lead;
    assert readme[end + |EndMarker|..] == s;
    assert start != -1 && end != -1 && end > start;
  }

  /**
   * As written, any README whose first START marker comes before its first
   * END marker has exactly the text between them, markers included, replaced
   * by the block: whatever was in front of START, an old heading or not,
   * stays where it is.
   */
  lemma ReplaceSectionMarked(p: string, m: string, s: string, block: string)
    requires !Contains(p, StartMarker) && !Contains(p + StartMarker + m, EndMarker)
    ensures ReplaceSection(p + StartMarker + m + EndMarker + s, block) == p + block + s
  {
    var readme := p + StartMarker + m + EndMarker + s;
    assert forall k :: 1 <= k < |StartMarker| ==> StartMarker[k] != StartMarker[0];
    assert forall k :: 1 <= k < |EndMarker| ==> EndMarker[k] != EndMarker[0];
    assert readme == p + StartMarker + (m + EndMarker + s);
    FirstAfter(p, StartMarker, m + EndMarker + s);
    FirstAfter(p + StartMarker + m, EndMarker, s);
    var start := |p|;
    var end := |p| + |StartMarker| + |m|;
    assert readme[..start] == p;
    assert readme[end + |EndMarker|..] == s;
  }

  /**
   * As written, a section refreshed with a block holds the heading twice in a
   * row, and the README grows by one heading on every run.
   */
  lemma ReplaceSectionRepeatsHeading(p: string, commits: seq<Commit>, repo: string, ts: string,
                                     s: string, block: string)
    requires Unmarked(p) && CleanFields(commits, repo, ts)
    requires block == TableText(commits, repo, ts)
    ensures |block| > |Lead| && block[..|Lead|] == Lead
    ensures ReplaceSection(p + block + s, block) == p + Lead + Lead + block[|Lead|..] + s
    ensures |ReplaceSection(p + block + s, block)| == |p + block + s| + |Lead|
  {
    ReplaceSectionKeepsOldHeading(p, commits, repo, ts, s, block);
    SectionCut(p, commits, repo, ts, s);
    var lead := Lead;
    var rest := block[|lead|..];
    assert block[..|lead|] == lead;
    assert block == lead + rest;
    Assoc(p + lead, lead, rest);
  }

  /** A README that does not hold a block in order gets the block appended after its trimmed text. */
  lemma ReplaceSectionAppends(readme: string, block: string)
    requires !Contains(readme, StartMarker) || !Contains(readme, EndMarker)
      || Find(readme, EndMarker) < Find(readme, StartMarker)
    ensures ReplaceSection(readme, block) == RStrip(readme) + "\n\n" + block + "\n"
    ensures ReplaceSectionFixed(readme, block) == RStrip(readme) + "\n\n" + block + "\n"
  {
  }

  /** The text an append leaves before the block holds no marker. */
  lemma AppendedUnmarked(readme: string)
    requires Unmarked(readme)
    ensures Unmarked(RStrip(readme) + "\n\n")
  {
    var r := RStrip(readme);
    var nn := "\n\n";
    PrefixAvoids(readme, |r|, StartMarker);
    PrefixAvoids(readme, |r|, EndMarker);
    assert readme[..|r|] == r;
    assert forall k :: 0 <= k < |nn| ==> nn[k] == '\n';
    assert '\n' !in StartMarker && '\n' !in EndMarker;
    AppendAvoids(r, nn, StartMarker);
    AppendAvoids(r, nn, EndMarker);
  }

  /**
   * As written, the second run on a README without markers already puts the
   * second heading in: the first run appends a block, the second leaves the
   * first block's heading in front of the new one.
   */
  lemma SecondRunRepeatsHeading(readme: string, commits: seq<Commit>, repo: string, ts: string,
                                block: string)
    requires Unmarked(readme) && CleanFields(commits, repo, ts)
    ensures ReplaceSection(ReplaceSection(readme, TableText(commits, repo, ts)), block)
      == RStrip(readme) + "\n\n" + Lead + block + "\n"
  {
    var p := RStrip(readme) + "\n\n";
    ReplaceSectionAppends(readme, TableText(commits, repo, ts));
    AppendedUnmarked(readme);
    ReplaceSectionKeepsOldHeading(p, commits, repo, ts, "\n", block);
  }

  /** Refreshing a section replaces the old block, heading included, and keeps the text around it. */
  lemma ReplaceSectionFixedRefreshes(p: string, commits: seq<Commit>, repo: string, ts: string,
                                     s: string, block: string)
    requires Unmarked(p) && CleanFields(commits, repo, ts)
    ensures ReplaceSectionFixed(p + TableText(commits, repo, ts) + s, block) == p + block + s
  {
    SectionMarkers(p, commits, repo, ts, s);
    SectionCut(p, commits, repo, ts, s);
    var prefix := p + Lead;
    assert prefix[|prefix| - |Lead|..] == Lead;
    assert prefix[..|prefix| - |Lead|] == p;
  }

  /** Refreshing a section with the block it already holds changes nothing. */
  lemma ReplaceSectionFixedIdempotent(p: string, commits: seq<Commit>, repo: string, ts: string,
                                      s: string)
    requires Unmarked(p) && CleanFields(commits, repo, ts)
    ensures var block := TableText(commits, repo, ts);
      ReplaceSectionFixed(p + block + s, block) == p + block + s
  {
    ReplaceSectionFixedRefreshes(p, commits, repo, ts, s, TableText(commits, repo, ts));
  }

  /** After the first run appended a block, a later run replaces just that block. */
  lemma SecondRunFixedReplaces(readme: string, commits: seq<Commit>, repo: string, ts: string,
                               block: string)
    requires Unmarked(readme) && CleanFields(commits, repo, ts)
    ensures ReplaceSectionFixed(ReplaceSectionFixed(readme, TableText(commits, repo, ts)), block)
      == RStrip(readme) + "\n\n" + block + "\n"
  {
    var p := RStrip(readme) + "\n\n";
    ReplaceSectionAppends(readme, TableText(commits, repo, ts));
    AppendedUnmarked(readme);
    ReplaceSectionFixedRefreshes(p, commits, repo, ts, "\n", block);
  }

  /**
   * `update_readme`: the README text, the output of `git log` and the
   * environment's repository name and time stamp give the text to write back,
   * or `None` when it equals what is there.
   */
  function UpdateReadme(content: string, gitOut: string, repo: string, ts: string): (r: Option<string>)
    ensures r.Some? ==> r.value != content
  {
    var updated := ReplaceSection(content, TableText(ParseLog(gitOut), repo, ts));
    if updated != content then Some(updated) else None
  }

  /** Appending the heading to text without markers adds no marker. */
  lemma LeadUnmarked(p: string)
    requires Unmarked(p)
    ensures Unmarked(p + Lead)
  {
    HeadAvoidsAngle();
    assert Lead[0] == '#';
    assert '#' !in StartMarker && '#' !in EndMarker;
    assert StartMarker[0] == '<' && EndMarker[0] == '<';
    AppendAvoidsHead(p, Lead, StartMarker);
    AppendAvoidsHead(p, Lead, EndMarker);
  }

  /** A block starts with the heading's `#`, and the character after the heading and blank line is `<`. */
  lemma BlockChars(commits: seq<Commit>, repo: string, ts: string)
    ensures |TableText(commits, repo, ts)| > |Lead|
    ensures TableText(commits, repo, ts)[0] == '#'
    ensures TableText(commits, repo, ts)[|Lead|] == '<'
  {
    TableTextLayout(commits, repo, ts);
    var t := TableText(commits, repo, ts);
    var ls := Lead + StartMarker;
    assert t == ls + MiddleText(commits, repo, ts) + EndMarker;
    assert t[|Lead|] == ls[|Lead|] == StartMarker[0];
  }

  /**
   * As written, the program writes on every run over a README that holds a
   * block: the old heading stays in front of the new block, so the text is
   * never the one that was read.
   */
  lemma UpdateReadmeAlwaysWrites(p: string, prev: seq<Commit>, prevRepo: string, prevTs: string, s: string,
                                 gitOut: string, repo: string, ts: string)
    requires Unmarked(p) && CleanFields(prev, prevRepo, prevTs)
    ensures var block := TableText(ParseLog(gitOut), repo, ts);
      UpdateReadme(p + TableText(prev, prevRepo, prevTs) + s, gitOut, repo, ts) == Some(p + Lead + block + s)
  {
    var old_ := TableText(prev, prevRepo, prevTs);
    var block := TableText(ParseLog(gitOut), repo, ts);
    var content := p + old_ + s;
    var updated := p + Lead + block + s;
    ReplaceSectionKeepsOldHeading(p, prev, prevRepo, prevTs, s, block);
    BlockChars(prev, prevRepo, prevTs);
    BlockChars(ParseLog(gitOut), repo, ts);
    var i := |p| + |Lead|;
    assert content[i] == old_[|Lead|];
    assert updated[i] == block[0];
  }

  /** The README after one run: the text written, or the same text when nothing is written. */
  function AfterRun(content: string, gitOut: string, repo: string, ts: string): (r: string)
    ensures r == content || UpdateReadme(content, gitOut, repo, ts) == Some(r)
  {
    match UpdateReadme(content, gitOut, repo, ts)
    case Some(u) => u
    case None => content
  }

  lemma AfterRunWrites(content: string, gitOut: string, repo: string, ts: string, u: string)
    requires UpdateReadme(content, gitOut, repo, ts) == Some(u)
    ensures AfterRun(content, gitOut, repo, ts) == u
  {
  }

  /** `n` copies of `t`. */
  function Repeat(t: string, n: nat): string
  {
    if n == 0 then "" else Repeat(t, n - 1) + t
  }

  lemma {:induction false} RepeatLength(t: string, n: nat)
    ensures |Repeat(t, n)| == n * |t|
  {
    if n > 0 {
      RepeatLength(t, n - 1);
    }
  }

  /** `f` applied `n` times. */
  function Iterate(f: string -> string, x: string, n: nat): string
  {
    if n == 0 then x else f(Iterate(f, x, n - 1))
  }

  /**
   * When one application of `f` inserts `lead` in front of `tail` after any
   * text with property `ok`, and the result keeps `ok`, then `n` applications
   * insert `n` copies.
   */
  lemma {:induction false} IterateInserts(f: string -> string, ok: string -> bool, p: string, lead: string,
                                          tail: string, n: nat)
    requires ok(p)
    requires forall q :: ok(q) ==> ok(q + lead) && f(q + tail) == q + lead + tail
    ensures Iterate(f, p + tail, n) == p + Repeat(lead, n) + tail
    ensures ok(p + Repeat(lead, n))
  {
    if n == 0 {
      assert p + Repeat(lead, n) == p;
    } else {
      IterateInserts(f, ok, p, lead, tail, n - 1);
      var q := p + Repeat(lead, n - 1);
      assert f(q + tail) == q + lead + tail;
      Assoc(p, Repeat(lead, n - 1), lead);
    }
  }

  /** The README after `n` runs with the same log, repository and time stamp. */
  function AfterRuns(content: string, gitOut: string, repo: string, ts: string, n: nat): string
  {
    Iterate(c => AfterRun(c, gitOut, repo, ts), content, n)
  }

  /** One run over a README holding its own block puts one more heading in front of it. */
  lemma RunAddsLead(q: string, s: string, gitOut: string, repo: string, ts: string)
    requires Unmarked(q) && CleanFields(ParseLog(gitOut), repo, ts)
    ensures var tail := TableText(ParseLog(gitOut), repo, ts) + s;
      Unmarked(q + Lead) && AfterRun(q + tail, gitOut, repo, ts) == q + Lead + tail
  {
    var block := TableText(ParseLog(gitOut), repo, ts);
    LeadUnmarked(q);
    UpdateReadmeAlwaysWrites(q, ParseLog(gitOut), repo, ts, s, gitOut, repo, ts);
    Assoc(q, block, s);
    Assoc(q + Lead, block, s);
    AfterRunWrites(q + (block + s), gitOut, repo, ts, q + Lead + block + s);
  }

  /**
   * As written, the README never settles: with the same log and time stamp,
   * each run adds one more heading and blank line in front of the block.
   */
  lemma UpdateReadmeRunsGrow(p: string, s: string, gitOut: string, repo: string, ts: string, n: nat)
    requires Unmarked(p) && CleanFields(ParseLog(gitOut), repo, ts)
    ensures var block := TableText(ParseLog(gitOut), repo, ts);
      AfterRuns(p + block + s, gitOut, repo, ts, n) == p + Repeat(Lead, n) + block + s
  {
    var block := TableText(ParseLog(gitOut), repo, ts);
    var tail := block + s;
    var f := c => AfterRun(c, gitOut, repo, ts);
    forall q | Unmarked(q) ensures Unmarked(q + Lead) && f(q + tail) == q + Lead + tail {
      RunAddsLead(q, s, gitOut, repo, ts);
    }
    IterateInserts(f, Unmarked, p, Lead, tail, n);
    Assoc(p, block, s);
    Assoc(p + Repeat(Lead, n), block, s);
  }

  /** As written, each run makes the README longer by one heading and blank line. */
  lemma UpdateReadmeRunsLength(p: string, s: string, gitOut: string, repo: string, ts: string, n: nat)
    requires Unmarked(p) && CleanFields(ParseLog(gitOut), repo, ts)
    ensures var content := p + TableText(ParseLog(gitOut), repo, ts) + s;
      |AfterRuns(content, gitOut, repo, ts, n)| == |content| + n * |Lead|
  {
    var block := TableText(ParseLog(gitOut), repo, ts);
    UpdateReadmeRunsGrow(p, s, gitOut, repo, ts, n);
    RepeatLength(Lead, n);
    assert |p + Repeat(Lead, n) + block + s| == |p| + |Repeat(Lead, n)| + |block| + |s|;
  }

  /**
   * `update_readme` with the two corrections: records stripped of git's
   * newline before they are split, and the old heading dropped before the
   * new block goes in.
   */
  function UpdateReadmeFixed(content: string, gitOut: string, repo: string, ts: string): (r: Option<string>)
    ensures r.Some? ==> r.value != content
  {
    var updated := ReplaceSectionFixed(content, TableText(ParseLogFixed(gitOut), repo, ts));
    if updated != content then Some(updated) else None
  }

  lemma CancelAround(p: string, a: string, b: string, s: string)
    ensures p + a + s == p + b + s ==> a == b
  {
    if p + a + s == p + b + s {
      assert a == (p + a + s)[|p|..|p| + |a|];
      assert b == (p + b + s)[|p|..|p| + |b|];
    }
  }

  /**
   * Corrected, a README holding a block gets the new block in its place; the
   * program writes only when the block changed, and a second run with the
   * same log and time stamp writes nothing.
   */
  lemma UpdateReadmeSettles(p: string, prev: seq<Commit>, prevRepo: string, prevTs: string, s: string,
                            gitOut: string, repo: string, ts: string)
    requires Unmarked(p) && CleanFields(prev, prevRepo, prevTs)
    requires CleanFields(ParseLogFixed(gitOut), repo, ts)
    ensures var content := p + TableText(prev, prevRepo, prevTs) + s;
      var block := TableText(ParseLogFixed(gitOut), repo, ts);
      UpdateReadmeFixed(content, gitOut, repo, ts)
        == (if block == TableText(prev, prevRepo, prevTs) then None else Some(p + block + s))
    ensures var block := TableText(ParseLogFixed(gitOut), repo, ts);
      UpdateReadmeFixed(p + block + s, gitOut, repo, ts) == None
  {
    var block := TableText(ParseLogFixed(gitOut), repo, ts);
    ReplaceSectionFixedRefreshes(p, prev, prevRepo, prevTs, s, block);
    ReplaceSectionFixedIdempotent(p, ParseLogFixed(gitOut), repo, ts, s);
    CancelAround(p, block, TableText(prev, prevRepo, prevTs), s);
  }
}
