/**
 * `get_commit_log` of update_readme.py: `git log` output, formatted as
 * `hash US subject US author US date RS` per commit, is cut into records on
 * RS (U+001E), blank records are dropped, and each record that splits into
 * exactly four fields on US (U+001F) becomes one commit. The git call itself
 * is outside the model: its output is the input string.
 */
module CommitLog {
  import opened Wrappers
  import opened Strings

  const RecordSep: char := '\U{1E}'
  const FieldSep: char := '\U{1F}'

  datatype Commit = Commit(hash: string, subject: string, author: string, date: string)

  function Fields(c: Commit): seq<string>
  {
    [c.hash, c.subject, c.author, c.date]
  }

  /** The filter `[r for r in parts if r.strip()]`. */
  function NonBlank(parts: seq<string>): (r: seq<string>)
    ensures |r| <= |parts|
    ensures forall x :: x in r <==> x in parts && !IsBlank(x)
  {
    if parts == [] then []
    else (if IsBlank(parts[0]) then [] else [parts[0]]) + NonBlank(parts[1..])
  }

  /** Filtering a concatenation filters each part: the kept records stay in input order. */
  lemma {:induction false} NonBlankConcat(a: seq<string>, b: seq<string>)
    ensures NonBlank(a + b) == NonBlank(a) + NonBlank(b)
  {
    if a == [] {
      assert a + b == b;
    } else {
      assert (a + b)[1..] == a[1..] + b;
      NonBlankConcat(a[1..], b);
    }
  }

  /** The records of `out`: its RS-separated pieces that are not blank. */
  function Records(out: string): (r: seq<string>)
    ensures forall x :: x in r ==> !IsBlank(x) && RecordSep !in x
  {
    NonBlank(Split(out, RecordSep))
  }

  /** The commit one record yields, or None when it does not split into four fields. */
  function CommitOf(rec: string): (r: Option<Commit>)
    ensures r.Some? <==> |Split(rec, FieldSep)| == 4
    ensures r.Some? ==> Split(rec, FieldSep) == Fields(r.value)
  {
    var parts := Split(rec, FieldSep);
    if |parts| != 4 then None else Some(Commit(parts[0], parts[1], parts[2], parts[3]))
  }

  /** The record loop: one commit per four-field record, in record order. */
  function ParseRecords(recs: seq<string>): (r: seq<Commit>)
    ensures |r| <= |recs|
  {
    if recs == [] then [] else OptionToSeq(CommitOf(recs[0])) + ParseRecords(recs[1..])
  }

  function ParseLog(out: string): (r: seq<Commit>)
    ensures |r| <= |Records(out)|
  {
    ParseRecords(Records(out))
  }

  /** Parsing a concatenation of record lists concatenates the commits: order is kept. */
  lemma {:induction false} ParseRecordsConcat(a: seq<string>, b: seq<string>)
    ensures ParseRecords(a + b) == ParseRecords(a) + ParseRecords(b)
  {
    if a == [] {
      assert a + b == b;
    } else {
      assert (a + b)[1..] == a[1..] + b;
      ParseRecordsConcat(a[1..], b);
    }
  }

  /**
   * A record yields a commit exactly when it is the commit's four fields
   * verbatim, joined by US, with no US inside a field: nothing is trimmed.
   */
  lemma CommitOfVerbatim(rec: string, c: Commit)
    ensures CommitOf(rec) == Some(c) <==>
      (rec == c.hash + [FieldSep] + c.subject + [FieldSep] + c.author + [FieldSep] + c.date
       && forall k :: 0 <= k < 4 ==> FieldSep !in Fields(c)[k])
  {
    var f := Fields(c);
    JoinFour(f, [FieldSep]);
    assert Join(f, [FieldSep]) == c.hash + [FieldSep] + c.subject + [FieldSep] + c.author + [FieldSep] + c.date;
    if CommitOf(rec) == Some(c) {
      JoinSplit(rec, FieldSep);
    }
    if rec == Join(f, [FieldSep]) && forall k :: 0 <= k < 4 ==> FieldSep !in f[k] {
      SplitJoin(f, FieldSep);
    }
  }

  lemma JoinFour(f: seq<string>, sep: string)
    requires |f| == 4
    ensures Join(f, sep) == f[0] + sep + f[1] + sep + f[2] + sep + f[3]
  {
    assert f[1..][1..] == f[2..];
    assert f[2..][1..] == [f[3]];
    assert Join(f[2..], sep) == f[2] + sep + f[3];
    assert Join(f[1..], sep) == f[1] + sep + (f[2] + sep + f[3]);
  }

  /** Every commit returned comes from one of the records. */
  lemma {:induction false} ParseRecordsSound(recs: seq<string>, c: Commit)
    requires c in ParseRecords(recs)
    ensures exists rec :: rec in recs && CommitOf(rec) == Some(c)
  {
    if c in OptionToSeq(CommitOf(recs[0])) {
      assert recs[0] in recs;
    } else {
      ParseRecordsSound(recs[1..], c);
      var rec :| rec in recs[1..] && CommitOf(rec) == Some(c);
      assert rec in recs;
    }
  }

  /** Every record with four fields contributes its commit. */
  lemma {:induction false} ParseRecordsComplete(recs: seq<string>, rec: string)
    requires rec in recs && CommitOf(rec).Some?
    ensures CommitOf(rec).value in ParseRecords(recs)
  {
    if rec != recs[0] {
      ParseRecordsComplete(recs[1..], rec);
    }
  }

  /** When every record has four fields, commit `k` is record `k`. */
  lemma {:induction false} ParseRecordsExact(recs: seq<string>)
    requires forall k :: 0 <= k < |recs| ==> CommitOf(recs[k]).Some?
    ensures |ParseRecords(recs)| == |recs|
    ensures forall k :: 0 <= k < |recs| ==> ParseRecords(recs)[k] == CommitOf(recs[k]).value
  {
    if recs != [] {
      ParseRecordsExact(recs[1..]);
    }
  }

  /** Blank records never reach the result; every non-blank record is considered, in order. */
  lemma RecordsOfLog(out: string)
    ensures forall r :: r in Records(out) ==> !IsBlank(r) && RecordSep !in r
    ensures forall r :: r in Split(out, RecordSep) && !IsBlank(r) ==> r in Records(out)
    ensures |ParseLog(out)| <= |Records(out)|
  {
  }

  lemma ParseStep(recs: seq<string>, rec: string)
    ensures ParseRecords(recs + [rec]) == ParseRecords(recs) + OptionToSeq(CommitOf(rec))
  {
    ParseRecordsConcat(recs, [rec]);
    assert [rec][1..] == [];
  }

  /** `get_commit_log` over the output of git, with its append loop. */
  method GetCommitLog(out: string) returns (commits: seq<Commit>)
    ensures commits == ParseLog(out)
  {
    var records := Records(out);
    commits := [];
    for i := 0 to |records|
      invariant commits == ParseRecords(records[..i])
    {
      var parts := Split(records[i], FieldSep);
      ghost var before := commits;
      if |parts| == 4 {
        commits := commits + [Commit(parts[0], parts[1], parts[2], parts[3])];
      }
      assert commits == before + OptionToSeq(CommitOf(records[i]));
      ParseStep(records[..i], records[i]);
      assert records[..i + 1] == records[..i] + [records[i]];
    }
    assert records[..|records|] == records;
  }

  /** The record git prints for a commit with the format `%h US %s US %an US %ad`. */
  function GitRecord(c: Commit): string
  {
    c.hash + [FieldSep] + c.subject + [FieldSep] + c.author + [FieldSep] + c.date
  }

  /**
   * What `git log --pretty=format:` prints: each commit's record closed by
   * RS, and, since `format:` separates entries, a newline between commits.
   */
  function GitOutput(cs: seq<Commit>): (r: string)
    ensures |cs| > 0 ==> |r| > 0 && r[|r| - 1] == RecordSep
  {
    if |cs| == 0 then ""
    else if |cs| == 1 then GitRecord(cs[0]) + [RecordSep]
    else GitOutput(cs[..|cs| - 1]) + "\n" + GitRecord(cs[|cs| - 1]) + [RecordSep]
  }

  /** A commit git can print: no separator in a field, and a short hash that is not blank and does not start with a newline. */
  predicate Printable(c: Commit)
  {
    (forall k :: 0 <= k < 4 ==> FieldSep !in Fields(c)[k] && RecordSep !in Fields(c)[k])
    && |c.hash| > 0 && !IsBlank(c.hash) && c.hash[0] != '\n'
  }

  /** The commit the loop makes of a record that starts with git's newline. */
  function NewlineHash(c: Commit): Commit
  {
    Commit("\n" + c.hash, c.subject, c.author, c.date)
  }

  /** `rec.lstrip("\n")`: the record without the newlines in front of it. */
  function LStripNewlines(rec: string): (r: string)
    ensures |r| <= |rec| && r == rec[|rec| - |r|..]
    ensures forall k :: 0 <= k < |rec| - |r| ==> rec[k] == '\n'
    ensures |r| == 0 || r[0] != '\n'
  {
    if |rec| > 0 && rec[0] == '\n' then LStripNewlines(rec[1..]) else rec
  }

  function StripAll(recs: seq<string>): (r: seq<string>)
    ensures |r| == |recs| && forall k :: 0 <= k < |recs| ==> r[k] == LStripNewlines(recs[k])
  {
    seq(|recs|, i requires 0 <= i < |recs| => LStripNewlines(recs[i]))
  }

  /** `get_commit_log` with each record stripped of the newlines in front of it before it is split. */
  function ParseLogFixed(out: string): (r: seq<Commit>)
    ensures |r| <= |Records(out)|
  {
    ParseRecords(StripAll(Records(out)))
  }

  /** A printable commit's record, as git prints it first and as it prints it after a newline. */
  lemma PrintedRecord(c: Commit)
    requires Printable(c)
    ensures RecordSep !in GitRecord(c) && !IsBlank(GitRecord(c))
    ensures RecordSep !in "\n" + GitRecord(c) && !IsBlank("\n" + GitRecord(c))
    ensures CommitOf(GitRecord(c)) == Some(c)
    ensures CommitOf("\n" + GitRecord(c)) == Some(NewlineHash(c))
    ensures LStripNewlines(GitRecord(c)) == GitRecord(c)
    ensures LStripNewlines("\n" + GitRecord(c)) == GitRecord(c)
  {
    var r := GitRecord(c);
    var x := "\n" + r;
    var d := NewlineHash(c);
    assert Fields(c)[0] == c.hash && Fields(c)[1] == c.subject && Fields(c)[2] == c.author && Fields(c)[3] == c.date;
    assert Fields(d)[0] == "\n" + c.hash && Fields(d)[1] == c.subject && Fields(d)[2] == c.author && Fields(d)[3] == c.date;
    var h :| 0 <= h < |c.hash| && !IsPySpace(c.hash[h]);
    assert r[h] == c.hash[h] && x[h + 1] == c.hash[h];
    assert GitRecord(d) == x;
    CommitOfVerbatim(r, c);
    CommitOfVerbatim(x, d);
    assert r[0] == c.hash[0];
    assert x[1..] == r;
  }

  lemma NonBlankPieces(x: string)
    requires !IsBlank(x)
    ensures NonBlank([""]) == [] && NonBlank([x, ""]) == [x]
  {
    assert IsBlank("");
    assert [x, ""][1..] == [""];
  }

  /** The records of an RS-closed output with one more RS-closed record after it. */
  lemma RecordsAppend(b: string, x: string)
    requires RecordSep !in x && !IsBlank(x)
    ensures Records(b + [RecordSep] + x + [RecordSep]) == Records(b + [RecordSep]) + [x]
  {
    var pb := Split(b, RecordSep);
    SplitClosed(b, x, RecordSep);
    NonBlankPieces(x);
    NonBlankConcat(pb, [x, ""]);
    NonBlankConcat(pb, [""]);
  }

  /** The records of one RS-closed record. */
  lemma RecordsOne(x: string)
    requires RecordSep !in x && !IsBlank(x)
    ensures Records(x + [RecordSep]) == [x]
  {
    SplitClosed(x, x, RecordSep);
    SplitNone(x, RecordSep);
    NonBlankPieces(x);
  }

  /** The output of one commit is that commit, as written and with the records stripped. */
  lemma FirstRecordParsed(c: Commit)
    requires Printable(c)
    ensures ParseLog(GitRecord(c) + [RecordSep]) == [c]
    ensures ParseLogFixed(GitRecord(c) + [RecordSep]) == [c]
  {
    var r := GitRecord(c);
    PrintedRecord(c);
    RecordsOne(r);
    ParseStep([], r);
    assert StripAll([r]) == [r];
  }

  /**
   * A record git prints after an earlier one: as written, the commit keeps
   * git's newline at the front of its hash; with the records stripped, it
   * is the commit printed.
   */
  lemma LaterRecordParsed(out: string, c: Commit)
    requires |out| > 0 && out[|out| - 1] == RecordSep
    requires Printable(c)
    ensures ParseLog(out + "\n" + GitRecord(c) + [RecordSep]) == ParseLog(out) + [NewlineHash(c)]
    ensures ParseLogFixed(out + "\n" + GitRecord(c) + [RecordSep]) == ParseLogFixed(out) + [c]
  {
    var b := out[..|out| - 1];
    var x := "\n" + GitRecord(c);
    assert out == b + [RecordSep];
    assert out + "\n" + GitRecord(c) + [RecordSep] == b + [RecordSep] + x + [RecordSep];
    PrintedRecord(c);
    RecordsAppend(b, x);
    var recs := Records(out);
    ParseStep(recs, x);
    StripAllSnoc(recs, x);
    ParseStep(StripAll(recs), GitRecord(c));
  }

  lemma StripAllSnoc(recs: seq<string>, x: string)
    ensures StripAll(recs + [x]) == StripAll(recs) + [LStripNewlines(x)]
  {
    var ys := recs + [x];
    var a, b := StripAll(ys), StripAll(recs) + [LStripNewlines(x)];
    forall k | 0 <= k < |a| ensures a[k] == b[k] {
      if k < |recs| {
        assert ys[k] == recs[k];
      } else {
        assert ys[k] == x;
      }
    }
  }

  lemma SnocFront(cs: seq<Commit>)
    requires |cs| > 0
    ensures cs[..|cs| - 1] + [cs[|cs| - 1]] == cs
  {
  }

  /** The commits as written for one more record after git's newline. */
  lemma ParsedSnoc(ps: seq<Commit>, cs: seq<Commit>)
    requires |cs| > 1 && |ps| == |cs| - 1
    requires forall k :: 0 <= k < |ps| ==> ps[k] == if k == 0 then cs[0] else NewlineHash(cs[k])
    ensures var r := ps + [NewlineHash(cs[|cs| - 1])];
      |r| == |cs| && forall k :: 0 <= k < |cs| ==> r[k] == if k == 0 then cs[0] else NewlineHash(cs[k])
  {
  }

  /**
   * As written, every commit after the first comes back with a newline in
   * front of its hash: the newline `format:` puts between entries.
   */
  lemma {:induction false} GitOutputParsed(cs: seq<Commit>)
    requires forall k :: 0 <= k < |cs| ==> Printable(cs[k])
    ensures |ParseLog(GitOutput(cs))| == |cs|
    ensures forall k :: 0 <= k < |cs| ==>
      ParseLog(GitOutput(cs))[k] == if k == 0 then cs[0] else NewlineHash(cs[k])
  {
    if |cs| == 1 {
      FirstRecordParsed(cs[0]);
    } else if |cs| > 1 {
      var n := |cs| - 1;
      var front, c := cs[..n], cs[n];
      assert forall k :: 0 <= k < |front| ==> front[k] == cs[k];
      var out := GitOutput(front);
      assert GitOutput(cs) == out + "\n" + GitRecord(c) + [RecordSep];
      GitOutputParsed(front);
      LaterRecordParsed(out, c);
      ParsedSnoc(ParseLog(out), cs);
    }
  }

  /** With each record stripped of its leading newlines, git's output parses back to exactly the commits printed. */
  lemma {:induction false} GitOutputParsedFixed(cs: seq<Commit>)
    requires forall k :: 0 <= k < |cs| ==> Printable(cs[k])
    ensures ParseLogFixed(GitOutput(cs)) == cs
  {
    if |cs| == 1 {
      FirstRecordParsed(cs[0]);
    } else if |cs| > 1 {
      var n := |cs| - 1;
      var front, c := cs[..n], cs[n];
      assert forall k :: 0 <= k < |front| ==> front[k] == cs[k];
      var out := GitOutput(front);
      assert GitOutput(cs) == out + "\n" + GitRecord(c) + [RecordSep];
      GitOutputParsedFixed(front);
      LaterRecordParsed(out, c);
      SnocFront(cs);
    }
  }
}
