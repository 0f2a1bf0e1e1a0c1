/**
 * `esc_md_cell` and `build_table` of update_readme.py: the Markdown block
 * that lists recent commits. The repository name (read from the environment
 * by the program) and the formatted UTC time stamp are parameters.
 */
module CommitTable {
  import opened Strings
  import opened CommitLog

  /** `s.replace(c, rep)` for a one-character pattern. */
  function ReplaceChar(s: string, c: char, rep: string): (r: string)
    ensures c !in rep ==> c !in r
  {
    if |s| == 0 then [] else (if s[0] == c then rep else [s[0]]) + ReplaceChar(s[1..], c, rep)
  }

  /** A replacement brings in no character that neither the text nor the replacement holds. */
  lemma {:induction false} ReplaceCharAvoids(s: string, c: char, rep: string, d: char)
    requires d !in s && d !in rep
    ensures d !in ReplaceChar(s, c, rep)
  {
    if |s| > 0 {
      ReplaceCharAvoids(s[1..], c, rep, d);
    }
  }

  lemma {:induction false} ReplaceCharConcat(a: string, b: string, c: char, rep: string)
    ensures ReplaceChar(a + b, c, rep) == ReplaceChar(a, c, rep) + ReplaceChar(b, c, rep)
  {
    if a == [] {
      assert a + b == b;
    } else {
      assert (a + b)[1..] == a[1..] + b;
      ReplaceCharConcat(a[1..], b, c, rep);
    }
  }

  lemma {:induction false} ReplaceCharAbsent(s: string, c: char, rep: string)
    requires c !in s
    ensures ReplaceChar(s, c, rep) == s
  {
    if s != [] {
      ReplaceCharAbsent(s[1..], c, rep);
    }
  }

  /** `html.escape(s, quote=False)`: `&` first, then `<` and `>`. */
  function HtmlEscape(s: string): (r: string)
    ensures '<' !in r && '>' !in r
  {
    var lt := ReplaceChar(ReplaceChar(s, '&', "&amp;"), '<', "&lt;");
    ReplaceCharAvoids(lt, '>', "&gt;", '<');
    ReplaceChar(lt, '>', "&gt;")
  }

  /** `esc_md_cell`: HTML-escape, then backslash-escape `|` and then the backtick. */
  function EscMdCell(text: string): (r: string)
    ensures '<' !in r && '>' !in r
  {
    var h := HtmlEscape(text);
    var p := ReplaceChar(h, '|', "\\|");
    ReplaceCharAvoids(h, '|', "\\|", '<');
    ReplaceCharAvoids(h, '|', "\\|", '>');
    ReplaceCharAvoids(p, '`', "\\`", '<');
    ReplaceCharAvoids(p, '`', "\\`", '>');
    ReplaceChar(p, '`', "\\`")
  }

  /** Reference definition of the escape: one character at a time. */
  function EscChar(c: char): string
  {
    if c == '&' then "&amp;"
    else if c == '<' then "&lt;"
    else if c == '>' then "&gt;"
    else if c == '|' then "\\|"
    else if c == '`' then "\\`"
    else [c]
  }

  function EscChars(s: string): string
  {
    if |s| == 0 then [] else EscChar(s[0]) + EscChars(s[1..])
  }

  lemma EscMdCellConcat(a: string, b: string)
    ensures EscMdCell(a + b) == EscMdCell(a) + EscMdCell(b)
  {
    ReplaceCharConcat(a, b, '&', "&amp;");
    var a1, b1 := ReplaceChar(a, '&', "&amp;"), ReplaceChar(b, '&', "&amp;");
    ReplaceCharConcat(a1, b1, '<', "&lt;");
    var a2, b2 := ReplaceChar(a1, '<', "&lt;"), ReplaceChar(b1, '<', "&lt;");
    ReplaceCharConcat(a2, b2, '>', "&gt;");
    var a3, b3 := ReplaceChar(a2, '>', "&gt;"), ReplaceChar(b2, '>', "&gt;");
    ReplaceCharConcat(a3, b3, '|', "\\|");
    var a4, b4 := ReplaceChar(a3, '|', "\\|"), ReplaceChar(b3, '|', "\\|");
    ReplaceCharConcat(a4, b4, '`', "\\`");
  }

  lemma ReplaceCharSingle(c: char, d: char, rep: string)
    ensures ReplaceChar([c], d, rep) == if c == d then rep else [c]
  {
    assert [c][1..] == [];
  }

  /** An escape sequence that holds none of the later patterns passes the later replacements unchanged. */
  lemma LaterReplacementsKeep(e: string, fromLt: bool, fromGt: bool, fromPipe: bool)
    requires fromLt ==> '<' !in e
    requires fromGt ==> '>' !in e
    requires fromPipe ==> '|' !in e
    requires '`' !in e
    ensures fromLt ==> ReplaceChar(e, '<', "&lt;") == e
    ensures fromGt ==> ReplaceChar(e, '>', "&gt;") == e
    ensures fromPipe ==> ReplaceChar(e, '|', "\\|") == e
    ensures ReplaceChar(e, '`', "\\`") == e
  {
    if fromLt { ReplaceCharAbsent(e, '<', "&lt;"); }
    if fromGt { ReplaceCharAbsent(e, '>', "&gt;"); }
    if fromPipe { ReplaceCharAbsent(e, '|', "\\|"); }
    ReplaceCharAbsent(e, '`', "\\`");
  }

  lemma EscMdCellAmp(c: char)
    requires c == '&'
    ensures EscMdCell([c]) == "&amp;"
  {
    var e := "&amp;";
    ReplaceCharSingle(c, '&', e);
    LaterReplacementsKeep(e, true, true, true);
  }

  lemma EscMdCellLt(c: char)
    requires c == '<'
    ensures EscMdCell([c]) == "&lt;"
  {
    var e := "&lt;";
    ReplaceCharSingle(c, '&', "&amp;");
    ReplaceCharSingle(c, '<', e);
    LaterReplacementsKeep(e, false, true, true);
  }

  lemma EscMdCellGt(c: char)
    requires c == '>'
    ensures EscMdCell([c]) == "&gt;"
  {
    var e := "&gt;";
    ReplaceCharSingle(c, '&', "&amp;");
    ReplaceCharSingle(c, '<', "&lt;");
    ReplaceCharSingle(c, '>', e);
    LaterReplacementsKeep(e, false, false, true);
  }

  lemma EscMdCellPipe(c: char)
    requires c == '|'
    ensures EscMdCell([c]) == "\\|"
  {
    var e := "\\|";
    ReplaceCharSingle(c, '&', "&amp;");
    ReplaceCharSingle(c, '<', "&lt;");
    ReplaceCharSingle(c, '>', "&gt;");
    ReplaceCharSingle(c, '|', e);
    LaterReplacementsKeep(e, false, false, false);
  }

  lemma EscMdCellOther(c: char)
    requires c !in "&<>|"
    ensures EscMdCell([c]) == if c == '`' then "\\`" else [c]
  {
    ReplaceCharSingle(c, '&', "&amp;");
    ReplaceCharSingle(c, '<', "&lt;");
    ReplaceCharSingle(c, '>', "&gt;");
    ReplaceCharSingle(c, '|', "\\|");
    ReplaceCharSingle(c, '`', "\\`");
  }

  /** For one character the five replacements compose to the one-pass escape. */
  lemma EscMdCellChar(c: char)
    ensures EscMdCell([c]) == EscChar(c)
  {
    if c == '&' {
      EscMdCellAmp(c);
    } else if c == '<' {
      EscMdCellLt(c);
    } else if c == '>' {
      EscMdCellGt(c);
    } else if c == '|' {
      EscMdCellPipe(c);
    } else {
      EscMdCellOther(c);
    }
  }

  /** The sequence of replacements in `esc_md_cell` equals the one-pass escape. */
  lemma {:induction false} EscMdCellOnePass(t: string)
    ensures EscMdCell(t) == EscChars(t)
  {
    if t == [] {
    } else {
      assert t == [t[0]] + t[1..];
      EscMdCellConcat([t[0]], t[1..]);
      EscMdCellChar(t[0]);
      EscMdCellOnePass(t[1..]);
    }
  }

  lemma {:induction false} EscCharsNoAngle(t: string)
    ensures '<' !in EscChars(t) && '>' !in EscChars(t)
  {
    if t != [] {
      EscCharsNoAngle(t[1..]);
    }
  }

  /** An escaped text never starts with `|` or a backtick: those always get a backslash first. */
  lemma {:induction false} EscCharsProtected(t: string)
    ensures forall i :: 0 <= i < |EscChars(t)| && (EscChars(t)[i] == '|' || EscChars(t)[i] == '`')
              ==> i > 0 && EscChars(t)[i - 1] == '\\'
  {
    if t != [] {
      var e, r := EscChar(t[0]), EscChars(t[1..]);
      EscCharsProtected(t[1..]);
      assert EscChars(t) == e + r;
      forall i | 0 <= i < |e + r| && ((e + r)[i] == '|' || (e + r)[i] == '`')
        ensures i > 0 && (e + r)[i - 1] == '\\'
      {
        if i >= |e| {
          assert (e + r)[i] == r[i - |e|];
          if i - |e| > 0 {
            assert (e + r)[i - 1] == r[i - |e| - 1];
          }
        }
      }
    }
  }

  /** The escape changes nothing in a text without `& < > |` or backticks. */
  lemma {:induction false} EscCharsPlain(t: string)
    requires forall k :: 0 <= k < |t| ==> t[k] !in "&<>|`"
    ensures EscChars(t) == t
  {
    if t != [] {
      EscCharsPlain(t[1..]);
      assert t == [t[0]] + t[1..];
    }
  }

  /** `esc_md_cell`'s output holds no `<` or `>`, and every `|` and backtick follows a backslash. */
  lemma EscMdCellSafe(t: string)
    ensures '<' !in EscMdCell(t) && '>' !in EscMdCell(t)
    ensures forall i :: 0 <= i < |EscMdCell(t)| && (EscMdCell(t)[i] == '|' || EscMdCell(t)[i] == '`')
              ==> i > 0 && EscMdCell(t)[i - 1] == '\\'
  {
    EscMdCellOnePass(t);
    EscCharsNoAngle(t);
    EscCharsProtected(t);
  }

  /** `esc_md_cell` is the identity on text without `& < > |` or backticks. */
  lemma EscMdCellPlain(t: string)
    requires forall k :: 0 <= k < |t| ==> t[k] !in "&<>|`"
    ensures EscMdCell(t) == t
  {
    EscMdCellOnePass(t);
    EscCharsPlain(t);
  }

  /**
   * Reading a cell back: entity references and backslash escapes are undone,
   * left to right.
   */
  function Unescape(s: string): string
  {
    if |s| >= 5 && s[..5] == "&amp;" then "&" + Unescape(s[5..])
    else if |s| >= 4 && s[..4] == "&lt;" then "<" + Unescape(s[4..])
    else if |s| >= 4 && s[..4] == "&gt;" then ">" + Unescape(s[4..])
    else if |s| >= 2 && s[..2] == "\\|" then "|" + Unescape(s[2..])
    else if |s| >= 2 && s[..2] == "\\`" then "`" + Unescape(s[2..])
    else if s == [] then []
    else [s[0]] + Unescape(s[1..])
  }

  lemma {:induction false} EscCharsHead(t: string)
    requires t != []
    ensures |EscChars(t)| > 0 && EscChars(t)[0] == EscChar(t[0])[0]
    ensures EscChars(t)[0] != '|' && EscChars(t)[0] != '`'
  {
  }

  lemma UnescapeAmp(r: string)
    ensures Unescape("&amp;" + r) == "&" + Unescape(r)
  {
    var s := "&amp;" + r;
    assert s[..5] == "&amp;" && s[5..] == r;
  }

  lemma UnescapeLt(r: string)
    ensures Unescape("&lt;" + r) == "<" + Unescape(r)
  {
    var s := "&lt;" + r;
    assert s[1] == 'l';
    assert s[..4] == "&lt;" && s[4..] == r;
  }

  lemma UnescapeGt(r: string)
    ensures Unescape("&gt;" + r) == ">" + Unescape(r)
  {
    var s := "&gt;" + r;
    assert s[1] == 'g';
    assert s[..4] == "&gt;" && s[4..] == r;
  }

  lemma UnescapePipe(r: string)
    ensures Unescape("\\|" + r) == "|" + Unescape(r)
  {
    var s := "\\|" + r;
    assert s[0] == '\\';
    assert s[..2] == "\\|" && s[2..] == r;
  }

  lemma UnescapeTick(r: string)
    ensures Unescape("\\`" + r) == "`" + Unescape(r)
  {
    var s := "\\`" + r;
    assert s[0] == '\\' && s[1] == '`';
    assert s[..2] == "\\`" && s[2..] == r;
  }

  /** A character that the escape keeps reads back as itself, unless a `|` or backtick follows a backslash. */
  lemma UnescapeKept(c: char, r: string)
    requires c !in "&<>|`"
    requires c == '\\' ==> r == [] || (r[0] != '|' && r[0] != '`')
    ensures Unescape([c] + r) == [c] + Unescape(r)
  {
    var s := [c] + r;
    assert s[0] == c && s[1..] == r;
    assert |s| >= 5 ==> s[..5][0] == c && s[..5] != "&amp;";
    assert |s| >= 4 ==> s[..4][0] == c && s[..4] != "&lt;" && s[..4] != "&gt;";
    assert |s| >= 2 ==> s[..2][0] == c && s[..2][1] == r[0];
    assert |s| >= 2 ==> s[..2] != "\\|" && s[..2] != "\\`";
  }

  /** Reading back one escaped character, followed by an escaped text. */
  lemma UnescapeStep(c: char, r: string)
    requires r == [] || (r[0] != '|' && r[0] != '`')
    ensures Unescape(EscChar(c) + r) == [c] + Unescape(r)
  {
    if c == '&' {
      UnescapeAmp(r);
    } else if c == '<' {
      UnescapeLt(r);
    } else if c == '>' {
      UnescapeGt(r);
    } else if c == '|' {
      UnescapePipe(r);
    } else if c == '`' {
      UnescapeTick(r);
    } else {
      UnescapeKept(c, r);
    }
  }

  /** Escaping loses nothing: the escaped cell reads back as the original text. */
  lemma {:induction false} UnescapeEscChars(t: string)
    ensures Unescape(EscChars(t)) == t
  {
    if t != [] {
      UnescapeEscChars(t[1..]);
      if t[1..] != [] {
        EscCharsHead(t[1..]);
      }
      UnescapeStep(t[0], EscChars(t[1..]));
      assert t == [t[0]] + t[1..];
    }
  }

  /** `esc_md_cell` is invertible. */
  lemma EscMdCellRoundTrip(t: string)
    ensures Unescape(EscMdCell(t)) == t
  {
    EscMdCellOnePass(t);
    UnescapeEscChars(t);
  }

  const Heading: string := "## \U{1F4DD} Recent Commits"
  const StartMarker: string := "<!-- COMMITS:START -->"
  const EndMarker: string := "<!-- COMMITS:END -->"
  const ColumnsLine: string := "| Hash | Message | Author | Date |"
  const RuleLine: string := "|------|---------|--------|------|"

  /** The commit URL, or "" when no repository is named. */
  function CommitLink(repo: string, hash: string): string
  {
    if |repo| > 0 then Concat(["https://github.com/", repo, "/commit/", hash]) else ""
  }

  function HashCell(repo: string, hash: string): string
  {
    var link := CommitLink(repo, hash);
    if |link| > 0 then Concat(["[`", hash, "`](", link, ")"]) else Concat(["`", hash, "`"])
  }

  /** The hash cell is a Markdown link exactly when a repository is named, else a bare code span. */
  lemma HashCellForm(repo: string, hash: string)
    ensures |repo| > 0 ==> HashCell(repo, hash) == Concat(["[`", hash, "`](", CommitLink(repo, hash), ")"])
    ensures |repo| == 0 ==> HashCell(repo, hash) == Concat(["`", hash, "`"])
    ensures HashCell(repo, hash)[0] == '[' <==> |repo| > 0
  {
    var link := CommitLink(repo, hash);
    if |repo| > 0 {
      var pieces := ["https://github.com/", repo, "/commit/", hash];
      assert Concat(pieces) == pieces[0] + Concat(pieces[1..]);
      var cell := ["[`", hash, "`](", link, ")"];
      assert Concat(cell) == cell[0] + Concat(cell[1..]);
    } else {
      var cell := ["`", hash, "`"];
      assert Concat(cell) == cell[0] + Concat(cell[1..]);
    }
  }

  /** A hash cell holds `<` only when the hash or the repository does. */
  lemma HashCellNoAngle(repo: string, hash: string)
    requires '<' !in repo && '<' !in hash
    ensures '<' !in HashCell(repo, hash)
  {
    var link := CommitLink(repo, hash);
    var pieces := ["https://github.com/", repo, "/commit/", hash];
    ConcatAvoids(pieces, '<');
    var linked := ["[`", hash, "`](", link, ")"];
    ConcatAvoids(linked, '<');
    var bare := ["`", hash, "`"];
    ConcatAvoids(bare, '<');
  }

  /** The pieces of the row f-string. */
  function RowPieces(c: Commit, repo: string): seq<string>
  {
    ["| ", HashCell(repo, c.hash), " | ", EscMdCell(c.subject), " | ", EscMdCell(c.author), " | ", c.date, " |"]
  }

  function Row(c: Commit, repo: string): string
  {
    Concat(RowPieces(c, repo))
  }

  /** The rows of the table, one per commit, built from the last commit backwards. */
  function Rows(commits: seq<Commit>, repo: string): (r: seq<string>)
    ensures |r| == |commits|
  {
    if |commits| == 0 then []
    else Rows(commits[..|commits| - 1], repo) + [Row(commits[|commits| - 1], repo)]
  }

  /** Row `k` of the table is the row of commit `k`. */
  lemma {:induction false} RowsAt(commits: seq<Commit>, repo: string, k: int)
    requires 0 <= k < |commits|
    ensures Rows(commits, repo)[k] == Row(commits[k], repo)
  {
    var n := |commits| - 1;
    var front := commits[..n];
    var last := Row(commits[n], repo);
    var rs := Rows(front, repo);
    assert Rows(commits, repo) == rs + [last];
    if k < n {
      RowsAt(front, repo, k);
      assert front[k] == commits[k];
      var r := rs[k];
      assert r == Row(commits[k], repo);
      assert (rs + [last])[k] == r;
    } else {
      assert (rs + [last])[k] == last;
    }
  }

  function HeaderLines(): seq<string>
  {
    [Heading, "", StartMarker, "", ColumnsLine, RuleLine]
  }

  function StampLine(ts: string): string
  {
    Concat(["*Last updated: ", ts, "*"])
  }

  function TrailerLines(ts: string): seq<string>
  {
    ["", StampLine(ts), "", EndMarker]
  }

  /** The lines of the block, with `ts` the already formatted UTC time. */
  function TableLines(commits: seq<Commit>, repo: string, ts: string): seq<string>
  {
    HeaderLines() + Rows(commits, repo) + TrailerLines(ts)
  }

  function TableText(commits: seq<Commit>, repo: string, ts: string): string
  {
    Join(TableLines(commits, repo, ts), "\n")
  }

  /** `build_table`: the `lines` list is built by appends, then joined with newlines. */
  method BuildTable(commits: seq<Commit>, repo: string, ts: string) returns (table: string)
    ensures table == TableText(commits, repo, ts)
  {
    var lines: seq<string> := [Heading, "", StartMarker, "", ColumnsLine, RuleLine];
    for i := 0 to |commits|
      invariant lines == HeaderLines() + Rows(commits[..i], repo)
    {
      var c := commits[i];
      var link := CommitLink(repo, c.hash);
      var hashCell := if |link| > 0 then Concat(["[`", c.hash, "`](", link, ")"]) else Concat(["`", c.hash, "`"]);
      var subj := EscMdCell(c.subject);
      var author := EscMdCell(c.author);
      lines := lines + [Concat(["| ", hashCell, " | ", subj, " | ", author, " | ", c.date, " |"])];
      assert commits[..i + 1][..i] == commits[..i];
    }
    assert commits[..|commits|] == commits;
    lines := lines + TrailerLines(ts);
    table := Join(lines, "\n");
  }

  /** Six header lines, one row per commit in order, four trailer lines. */
  lemma TableShape(commits: seq<Commit>, repo: string, ts: string)
    ensures var lines := TableLines(commits, repo, ts);
      && |lines| == 6 + |commits| + 4
      && lines[..6] == HeaderLines()
      && (forall k :: 0 <= k < |commits| ==> lines[6 + k] == Row(commits[k], repo))
      && lines[6 + |commits|..] == TrailerLines(ts)
      && lines[0] == Heading && lines[2] == StartMarker && lines[|lines| - 1] == EndMarker
  {
    var lines := TableLines(commits, repo, ts);
    var rows := Rows(commits, repo);
    ThreeParts(HeaderLines(), rows, TrailerLines(ts));
    forall k | 0 <= k < |commits| ensures lines[6 + k] == Row(commits[k], repo) {
      RowsAt(commits, repo, k);
    }
  }

  /** Where the parts of a three-part concatenation sit. */
  lemma ThreeParts<T>(h: seq<T>, m: seq<T>, t: seq<T>)
    ensures (h + m + t)[..|h|] == h && (h + m + t)[|h| + |m|..] == t
    ensures forall k :: 0 <= k < |m| ==> (h + m + t)[|h| + k] == m[k]
  {
  }

  /** The lines between the START and END marker lines. */
  function MiddleLines(commits: seq<Commit>, repo: string, ts: string): seq<string>
  {
    ["", ColumnsLine, RuleLine] + Rows(commits, repo) + ["", StampLine(ts), ""]
  }

  /** Everything between the START marker and the END marker. */
  function MiddleText(commits: seq<Commit>, repo: string, ts: string): string
  {
    "\n" + Join(MiddleLines(commits, repo, ts), "\n") + "\n"
  }

  lemma JoinLayout(h: string, start: string, mid: seq<string>, end: string)
    requires |mid| > 0
    ensures Join([h, ""] + ([start] + (mid + [end])), "\n")
      == (h + "\n\n") + start + ("\n" + Join(mid, "\n") + "\n") + end
  {
    var nl := "\n";
    var tail := mid + [end];
    var rest := [start] + tail;
    var jm := Join(mid, nl);
    JoinConcat(mid, [end], nl);
    var jt := jm + nl + end;
    assert Join(tail, nl) == jt;
    JoinConcat([start], tail, nl);
    var jr := start + nl + jt;
    assert Join(rest, nl) == jr;
    JoinConcat([h, ""], rest, nl);
    assert [h, ""][1..] == [""];
    assert Join([h, ""], nl) == h + nl;
    assert Join([h, ""] + rest, nl) == (h + nl) + nl + jr;
    var p := h + "\n\n";
    assert nl + nl == "\n\n";
    Assoc(h, nl, nl);
    calc {
      p + jr;
      p + ((start + nl) + ((jm + nl) + end));
      { Assoc(start, nl, (jm + nl) + end); }
      p + (start + (nl + ((jm + nl) + end)));
      { Assoc(nl, jm + nl, end); }
      p + (start + ((nl + (jm + nl)) + end));
      { Assoc(p, start, (nl + (jm + nl)) + end); }
      (p + start) + ((nl + (jm + nl)) + end);
      { Assoc(p + start, nl + (jm + nl), end); }
      ((p + start) + (nl + (jm + nl))) + end;
      { Assoc(nl, jm, nl); }
      ((p + start) + ((nl + jm) + nl)) + end;
    }
  }

  /** The block text: heading, blank line, START marker, the middle, END marker. */
  lemma TableTextLayout(commits: seq<Commit>, repo: string, ts: string)
    ensures TableText(commits, repo, ts)
      == (Heading + "\n\n") + StartMarker + MiddleText(commits, repo, ts) + EndMarker
  {
    var mid := MiddleLines(commits, repo, ts);
    LinesLayout(Heading, "", StartMarker, "", ColumnsLine, RuleLine,
      Rows(commits, repo), "", StampLine(ts), "", EndMarker);
    JoinLayout(Heading, StartMarker, mid, EndMarker);
  }

  /** The block's lines regrouped as heading, blank, START marker, middle, END marker. */
  lemma LinesLayout<T>(h0: T, h1: T, h2: T, h3: T, h4: T, h5: T, rows: seq<T>, t0: T, t1: T, t2: T, t3: T)
    ensures [h0, h1, h2, h3, h4, h5] + rows + [t0, t1, t2, t3]
      == [h0, h1] + ([h2] + (([h3, h4, h5] + rows + [t0, t1, t2]) + [t3]))
  {
  }

  /** The escape keeps line breaks: it writes a newline exactly where the text has one. */
  lemma {:induction false} EscCharsNewline(t: string)
    ensures '\n' in EscChars(t) <==> '\n' in t
  {
    if t != [] {
      EscCharsNewline(t[1..]);
      assert t == [t[0]] + t[1..];
    }
  }

  lemma EscMdCellNewline(t: string)
    ensures '\n' in EscMdCell(t) <==> '\n' in t
  {
    EscMdCellOnePass(t);
    EscCharsNewline(t);
  }

  /** A hash cell breaks the line exactly when the hash or the repository holds a newline. */
  lemma HashCellNewline(repo: string, hash: string)
    ensures '\n' in HashCell(repo, hash) <==> '\n' in hash || '\n' in repo
  {
    var link := CommitLink(repo, hash);
    var pieces := ["https://github.com/", repo, "/commit/", hash];
    var linked := ["[`", hash, "`](", link, ")"];
    var bare := ["`", hash, "`"];
    if '\n' in hash || '\n' in repo {
      if |repo| > 0 {
        if '\n' in hash {
          ConcatHas(linked, 1, '\n');
        } else {
          ConcatHas(pieces, 1, '\n');
          ConcatHas(linked, 3, '\n');
        }
      } else {
        ConcatHas(bare, 1, '\n');
      }
    } else {
      ConcatAvoids(pieces, '\n');
      ConcatAvoids(linked, '\n');
      ConcatAvoids(bare, '\n');
    }
  }

  /** A row is one line of Markdown exactly when no field and not the repository holds a newline. */
  lemma RowNewline(c: Commit, repo: string)
    ensures '\n' in Row(c, repo) <==>
      '\n' in c.hash || '\n' in c.subject || '\n' in c.author || '\n' in c.date || '\n' in repo
  {
    var ps := RowPieces(c, repo);
    HashCellNewline(repo, c.hash);
    EscMdCellNewline(c.subject);
    EscMdCellNewline(c.author);
    if '\n' in c.hash || '\n' in repo {
      ConcatHas(ps, 1, '\n');
    } else if '\n' in c.subject {
      ConcatHas(ps, 3, '\n');
    } else if '\n' in c.author {
      ConcatHas(ps, 5, '\n');
    } else if '\n' in c.date {
      ConcatHas(ps, 7, '\n');
    } else {
      ConcatAvoids(ps, '\n');
    }
  }

  /** The row of a commit whose hash kept git's newline is split over two lines. */
  lemma NewlineHashBreaksRow(c: Commit, repo: string)
    ensures '\n' in Row(NewlineHash(c), repo)
  {
    RowNewline(NewlineHash(c), repo);
    assert NewlineHash(c).hash[0] == '\n';
  }

  /** Fields without line breaks. */
  predicate OneLine(c: Commit)
  {
    '\n' !in c.hash && '\n' !in c.subject && '\n' !in c.author && '\n' !in c.date
  }

  /**
   * As written, every row after the first that `build_table` makes from git's
   * output starts a new line inside the table.
   */
  lemma GitRowsBroken(cs: seq<Commit>, repo: string)
    requires forall k :: 0 <= k < |cs| ==> Printable(cs[k])
    ensures |Rows(ParseLog(GitOutput(cs)), repo)| == |cs|
    ensures forall k :: 1 <= k < |cs| ==> '\n' in Rows(ParseLog(GitOutput(cs)), repo)[k]
  {
    var ps := ParseLog(GitOutput(cs));
    GitOutputParsed(cs);
    forall k | 1 <= k < |cs| ensures '\n' in Rows(ps, repo)[k] {
      RowsAt(ps, repo, k);
      NewlineHashBreaksRow(cs[k], repo);
    }
  }

  /** With the records stripped, the table has one single-line row per commit git printed. */
  lemma GitRowsOneLine(cs: seq<Commit>, repo: string)
    requires forall k :: 0 <= k < |cs| ==> Printable(cs[k]) && OneLine(cs[k])
    requires '\n' !in repo
    ensures Rows(ParseLogFixed(GitOutput(cs)), repo) == Rows(cs, repo)
    ensures forall k :: 0 <= k < |cs| ==> '\n' !in Rows(ParseLogFixed(GitOutput(cs)), repo)[k]
  {
    GitOutputParsedFixed(cs);
    forall k | 0 <= k < |cs| ensures '\n' !in Rows(cs, repo)[k] {
      RowsAt(cs, repo, k);
      RowNewline(cs[k], repo);
    }
  }

  /** Fields that do not contain `<` (true of git's short hashes and dates). */
  predicate NoAngle(c: Commit)
  {
    '<' !in c.hash && '<' !in c.date
  }

  /** A row holds `<` only when the hash, the date or the repository does. */
  lemma RowNoAngle(c: Commit, repo: string)
    requires NoAngle(c) && '<' !in repo
    ensures '<' !in Row(c, repo)
  {
    EscMdCellSafe(c.subject);
    EscMdCellSafe(c.author);
    HashCellNoAngle(repo, c.hash);
    ConcatAvoids(RowPieces(c, repo), '<');
  }

  /** No row holds `<` when no hash, date or the repository does. */
  lemma RowsNoAngle(commits: seq<Commit>, repo: string)
    requires forall k :: 0 <= k < |commits| ==> NoAngle(commits[k])
    requires '<' !in repo
    ensures forall k :: 0 <= k < |Rows(commits, repo)| ==> '<' !in Rows(commits, repo)[k]
  {
    forall k | 0 <= k < |Rows(commits, repo)| ensures '<' !in Rows(commits, repo)[k] {
      RowsAt(commits, repo, k);
      RowNoAngle(commits[k], repo);
    }
  }

  /** The fixed lines between the markers hold no `<`. */
  lemma FixedLinesNoAngle(ts: string)
    requires '<' !in ts
    ensures forall k :: 0 <= k < 3 ==> '<' !in ["", ColumnsLine, RuleLine][k]
    ensures forall k :: 0 <= k < 3 ==> '<' !in ["", StampLine(ts), ""][k]
  {
    assert '<' !in ColumnsLine && '<' !in RuleLine;
    ConcatAvoids(["*Last updated: ", ts, "*"], '<');
  }

  lemma {:induction false} ThreeAvoid(a: seq<string>, b: seq<string>, c: seq<string>, ch: char)
    requires forall k :: 0 <= k < |a| ==> ch !in a[k]
    requires forall k :: 0 <= k < |b| ==> ch !in b[k]
    requires forall k :: 0 <= k < |c| ==> ch !in c[k]
    ensures forall k :: 0 <= k < |a + b + c| ==> ch !in (a + b + c)[k]
  {
    forall k | 0 <= k < |a + b + c| ensures ch !in (a + b + c)[k] {
      if k < |a| {
        assert (a + b + c)[k] == a[k];
      } else if k < |a| + |b| {
        assert (a + b + c)[k] == b[k - |a|];
      } else {
        assert (a + b + c)[k] == c[k - |a| - |b|];
      }
    }
  }

  /** With no `<` in hash, date, repository or time stamp, the middle of the block holds no `<`. */
  lemma MiddleNoAngle(commits: seq<Commit>, repo: string, ts: string)
    requires forall k :: 0 <= k < |commits| ==> NoAngle(commits[k])
    requires '<' !in repo && '<' !in ts
    ensures '<' !in MiddleText(commits, repo, ts)
  {
    var head3 := ["", ColumnsLine, RuleLine];
    var rows := Rows(commits, repo);
    var tail3 := ["", StampLine(ts), ""];
    RowsNoAngle(commits, repo);
    FixedLinesNoAngle(ts);
    ThreeAvoid(head3, rows, tail3, '<');
    JoinAvoids(head3 + rows + tail3, "\n", '<');
  }

  /** The fields a block is built from hold no `<`, so only the two markers do. */
  predicate CleanFields(commits: seq<Commit>, repo: string, ts: string)
  {
    (forall k :: 0 <= k < |commits| ==> NoAngle(commits[k])) && '<' !in repo && '<' !in ts
  }

  lemma HeadAvoidsAngle()
    ensures '<' !in Heading + "\n\n"
  {
    assert Heading + "\n\n" == "## \U{1F4DD} Recent Commits\n\n";
  }

  lemma StartMarkerTail(i: int)
    requires 1 <= i < |StartMarker|
    ensures StartMarker[i] != '<'
  {
    assert StartMarker[1..] == "!-- COMMITS:START -->";
    assert StartMarker[i] == StartMarker[1..][i - 1];
  }

  /** The START marker of a block sits right after the heading and its blank line. */
  lemma {:induction false} BlockStart(commits: seq<Commit>, repo: string, ts: string)
    ensures FirstAt(TableText(commits, repo, ts), StartMarker, |Heading| + 2)
  {
    TableTextLayout(commits, repo, ts);
    var h2 := Heading + "\n\n";
    var hs := h2 + StartMarker;
    var hsm := hs + MiddleText(commits, repo, ts);
    var t := hsm + EndMarker;
    assert OccursAt(StartMarker, StartMarker, 0);
    OccursAtShift(h2, StartMarker, StartMarker, 0);
    OccursAtExtend(hs, MiddleText(commits, repo, ts), StartMarker, |h2|);
    OccursAtExtend(hsm, EndMarker, StartMarker, |h2|);
    HeadAvoidsAngle();
    forall j | 0 <= j < |h2| ensures !OccursAt(t, StartMarker, j) {
      if j + |StartMarker| <= |t| {
        assert t[j] == h2[j];
        assert t[j..j + |StartMarker|][0] == t[j];
      }
    }
  }

  /** With clean fields the first END marker of a block is its last 20 characters. */
  lemma {:induction false} BlockEnd(commits: seq<Commit>, repo: string, ts: string)
    requires CleanFields(commits, repo, ts)
    ensures FirstAt(TableText(commits, repo, ts), EndMarker, |TableText(commits, repo, ts)| - |EndMarker|)
  {
    TableTextLayout(commits, repo, ts);
    var mid := MiddleText(commits, repo, ts);
    MiddleNoAngle(commits, repo, ts);
    var h2 := Heading + "\n\n";
    var hs := h2 + StartMarker;
    var hsm := hs + mid;
    var t := hsm + EndMarker;
    assert OccursAt(EndMarker, EndMarker, 0);
    OccursAtShift(hsm, EndMarker, EndMarker, 0);
    HeadAvoidsAngle();
    forall j | 0 <= j < |hsm| ensures !OccursAt(t, EndMarker, j) {
      if j + |EndMarker| <= |t| {
        var w := t[j..j + |EndMarker|];
        if j < |h2| {
          assert t[j] == h2[j];
          assert w[0] == t[j];
        } else if j == |h2| {
          assert t[j + 13] == StartMarker[13];
          assert w[13] == t[j + 13];
          assert w[13] != EndMarker[13];
        } else if j < |hs| {
          StartMarkerTail(j - |h2|);
          assert t[j] == StartMarker[j - |h2|];
          assert w[0] == t[j];
        } else {
          assert t[j] == mid[j - |hs|];
          assert w[0] == t[j];
        }
      }
    }
  }
}
