/**
 * String operations of the Python and JavaScript standard libraries that the
 * modelled code calls: `find`, `in`, `split` on one character, `join`,
 * `strip`/`rstrip` and the whitespace class they use.
 */
module Strings {

  /** `pat` occurs in `s` starting at index `i`. */
  predicate OccursAt(s: string, pat: string, i: int)
  {
    0 <= i && i + |pat| <= |s| && s[i..i + |pat|] == pat
  }

  /** Python's `s.find(pat, i)`: the first index at or after `i` where `pat` occurs, else -1. */
  function FindFrom(s: string, pat: string, i: nat): (r: int)
    requires i <= |s|
    ensures r == -1 || (i <= r && OccursAt(s, pat, r))
    ensures forall j :: i <= j && (r == -1 || j < r) ==> !OccursAt(s, pat, j)
    decreases |s| - i
  {
    if i + |pat| > |s| then -1
    else if s[i..i + |pat|] == pat then i
    else
      assert |pat| > 0;
      FindFrom(s, pat, i + 1)
  }

  /** Python's `s.find(pat)`. */
  function Find(s: string, pat: string): (r: int)
    ensures r == -1 || OccursAt(s, pat, r)
    ensures forall j :: 0 <= j && (r == -1 || j < r) ==> !OccursAt(s, pat, j)
  {
    FindFrom(s, pat, 0)
  }

  /** Python's `pat in s` (and JavaScript's `s.includes(pat)`). */
  predicate Contains(s: string, pat: string)
  {
    Find(s, pat) != -1
  }

  lemma ContainsIff(s: string, pat: string)
    ensures Contains(s, pat) <==> exists j :: OccursAt(s, pat, j)
  {
  }

  /** The first occurrence is found: any occurrence with none before it is what `find` returns. */
  lemma FindIs(s: string, pat: string, k: int)
    requires OccursAt(s, pat, k)
    requires forall j :: 0 <= j < k ==> !OccursAt(s, pat, j)
    ensures Find(s, pat) == k
  {
  }

  /** An occurrence of a non-empty pattern starts with the pattern's first character. */
  lemma OccursAtHead(s: string, pat: string, i: int)
    requires |pat| > 0 && OccursAt(s, pat, i)
    ensures s[i] == pat[0]
  {
    assert s[i..i + |pat|][0] == s[i];
  }

  /**
   * No occurrence starts inside `p` when `p` does not contain the pattern and
   * the text after `p` starts with a character the pattern does not hold.
   */
  lemma NoOccurrenceInPrefix(p: string, rest: string, pat: string)
    requires !Contains(p, pat)
    requires |rest| > 0 && rest[0] !in pat
    ensures forall j :: 0 <= j < |p| ==> !OccursAt(p + rest, pat, j)
  {
    var s := p + rest;
    forall j | 0 <= j < |p| ensures !OccursAt(s, pat, j) {
      if j + |pat| <= |p| {
        assert s[j..j + |pat|] == p[j..j + |pat|];
        ContainsIff(p, pat);
        assert !OccursAt(p, pat, j);
      } else if j + |pat| <= |s| {
        var k := |p| - j;
        assert s[j..j + |pat|][k] == rest[0];
        assert pat[k] != rest[0];
        assert s[j..j + |pat|] != pat;
      }
    }
  }

  /** Occurrences in `p + s` at or after `|p|` are occurrences in `s`. */
  lemma OccursAtShift(p: string, s: string, pat: string, j: int)
    requires 0 <= j
    ensures OccursAt(p + s, pat, |p| + j) <==> OccursAt(s, pat, j)
  {
    if |p| + j + |pat| <= |p + s| {
      assert (p + s)[|p| + j..|p| + j + |pat|] == s[j..j + |pat|];
    }
  }

  /** Occurrences that end inside `s` are the same in `s + t`. */
  lemma OccursAtExtend(s: string, t: string, pat: string, j: int)
    requires 0 <= j && j + |pat| <= |s|
    ensures OccursAt(s + t, pat, j) <==> OccursAt(s, pat, j)
  {
    assert (s + t)[j..j + |pat|] == s[j..j + |pat|];
  }

  /** `k` is the first index where `pat` occurs in `s`. */
  predicate FirstAt(s: string, pat: string, k: int)
  {
    OccursAt(s, pat, k) && forall j :: 0 <= j < k ==> !OccursAt(s, pat, j)
  }

  /**
   * The first occurrence in `x` stays the first one when a pattern-free `p`
   * is put before `x` (and `x` does not start with a character of the
   * pattern) and anything is put after it.
   */
  lemma FirstAtFrame(p: string, x: string, t: string, pat: string, k: int)
    requires !Contains(p, pat)
    requires |x| > 0 && x[0] !in pat
    requires FirstAt(x, pat, k)
    ensures Find(p + x + t, pat) == |p| + k
  {
    var xt := x + t;
    var s := p + xt;
    Assoc(p, x, t);
    OccursAtExtend(x, t, pat, k);
    OccursAtShift(p, xt, pat, k);
    NoOccurrenceInPrefix(p, xt, pat);
    forall j | |p| <= j < |p| + k ensures !OccursAt(s, pat, j) {
      OccursAtExtend(x, t, pat, j - |p|);
      OccursAtShift(p, xt, pat, j - |p|);
    }
    FindIs(s, pat, |p| + k);
  }

  /**
   * A pattern whose first character does not recur in it is first found
   * right after a text that does not contain it.
   */
  lemma FirstAfter(a: string, pat: string, t: string)
    requires |pat| > 0 && forall k :: 1 <= k < |pat| ==> pat[k] != pat[0]
    requires !Contains(a, pat)
    ensures Find(a + pat + t, pat) == |a|
  {
    var s := a + pat + t;
    assert s[|a|..|a| + |pat|] == pat;
    forall j | 0 <= j < |a| ensures !OccursAt(s, pat, j) {
      if j + |pat| <= |a| {
        assert s[j..j + |pat|] == a[j..j + |pat|];
        ContainsIff(a, pat);
        assert !OccursAt(a, pat, j);
      } else if j + |pat| <= |s| {
        var k := |a| - j;
        assert s[j..j + |pat|][k] == pat[0];
      }
    }
    FindIs(s, pat, |a|);
  }

  /** A prefix of a string without the pattern is without it too. */
  lemma PrefixAvoids(s: string, n: nat, pat: string)
    requires n <= |s| && !Contains(s, pat)
    ensures !Contains(s[..n], pat)
  {
    ContainsIff(s, pat);
    ContainsIff(s[..n], pat);
    forall j | OccursAt(s[..n], pat, j) ensures OccursAt(s, pat, j) {
      assert s[..n][j..j + |pat|] == s[j..j + |pat|];
    }
  }

  /** Appending characters none of which is in the pattern creates no occurrence. */
  lemma AppendAvoids(p: string, t: string, pat: string)
    requires !Contains(p, pat) && |pat| > 0
    requires |t| > 0 && forall k :: 0 <= k < |t| ==> t[k] !in pat
    ensures !Contains(p + t, pat)
  {
    var s := p + t;
    NoOccurrenceInPrefix(p, t, pat);
    forall j | |p| <= j ensures !OccursAt(s, pat, j) {
      if j + |pat| <= |s| {
        assert s[j..j + |pat|][0] == t[j - |p|];
        assert t[j - |p|] != pat[0];
      }
    }
    ContainsIff(s, pat);
  }

  /**
   * Appending text creates no occurrence when the text does not start with a
   * character of the pattern and does not hold the pattern's first character.
   */
  lemma AppendAvoidsHead(p: string, t: string, pat: string)
    requires !Contains(p, pat) && |pat| > 0
    requires |t| > 0 && t[0] !in pat && pat[0] !in t
    ensures !Contains(p + t, pat)
  {
    var s := p + t;
    NoOccurrenceInPrefix(p, t, pat);
    forall j | |p| <= j ensures !OccursAt(s, pat, j) {
      if j + |pat| <= |s| {
        assert s[j..j + |pat|][0] == t[j - |p|];
        assert t[j - |p|] in t;
      }
    }
    ContainsIff(s, pat);
  }

  /** Python's `sep.join(parts)`. */
  function Join(parts: seq<string>, sep: string): string
  {
    if |parts| == 0 then ""
    else if |parts| == 1 then parts[0]
    else parts[0] + sep + Join(parts[1..], sep)
  }

  lemma Assoc(a: string, b: string, c: string)
    ensures a + (b + c) == (a + b) + c
  {
  }

  /** The concatenation of the pieces of a Python f-string or JavaScript template literal. */
  function Concat(pieces: seq<string>): string
  {
    if |pieces| == 0 then "" else pieces[0] + Concat(pieces[1..])
  }

  /** A character absent from every piece is absent from the concatenation. */
  lemma {:induction false} ConcatAvoids(pieces: seq<string>, c: char)
    requires forall k :: 0 <= k < |pieces| ==> c !in pieces[k]
    ensures c !in Concat(pieces)
  {
    if |pieces| > 0 {
      ConcatAvoids(pieces[1..], c);
    }
  }

  /** A character of one piece is a character of the concatenation. */
  lemma {:induction false} ConcatHas(pieces: seq<string>, k: int, c: char)
    requires 0 <= k < |pieces| && c in pieces[k]
    ensures c in Concat(pieces)
  {
    if k > 0 {
      ConcatHas(pieces[1..], k - 1, c);
    }
  }

  /** Joining two non-empty lists of parts puts one separator between their joins. */
  lemma {:induction false} JoinConcat(xs: seq<string>, ys: seq<string>, sep: string)
    requires |xs| > 0 && |ys| > 0
    ensures Join(xs + ys, sep) == Join(xs, sep) + sep + Join(ys, sep)
    decreases |xs|
  {
    if |xs| > 1 {
      assert (xs + ys)[1..] == xs[1..] + ys;
      JoinConcat(xs[1..], ys, sep);
    } else {
      assert (xs + ys)[1..] == ys;
    }
  }

  /** A character absent from every part and from the separator is absent from the join. */
  lemma {:induction false} JoinAvoids(parts: seq<string>, sep: string, c: char)
    requires c !in sep
    requires forall k :: 0 <= k < |parts| ==> c !in parts[k]
    ensures c !in Join(parts, sep)
  {
    if |parts| > 1 {
      JoinAvoids(parts[1..], sep, c);
    }
  }

  /** Python's `s.split(sep)` for a one-character separator. */
  function Split(s: string, sep: char): (r: seq<string>)
    ensures |r| >= 1
    ensures forall k :: 0 <= k < |r| ==> sep !in r[k]
    decreases |s|
  {
    if |s| == 0 then [""]
    else
      var rest := Split(s[1..], sep);
      if s[0] == sep then [""] + rest
      else [[s[0]] + rest[0]] + rest[1..]
  }

  /** Joining what `split` cut yields the original string. */
  lemma {:induction false} JoinSplit(s: string, sep: char)
    ensures Join(Split(s, sep), [sep]) == s
    decreases |s|
  {
    if |s| > 0 {
      var rest := Split(s[1..], sep);
      JoinSplit(s[1..], sep);
      if s[0] == sep {
        assert Split(s, sep) == [""] + rest;
        assert ([""] + rest)[1..] == rest;
      } else {
        var r := Split(s, sep);
        assert r == [[s[0]] + rest[0]] + rest[1..];
        if |rest| > 1 {
          assert r[1..] == rest[1..];
          assert Join(rest, [sep]) == rest[0] + [sep] + Join(rest[1..], [sep]);
        }
      }
    }
  }

  /** Splitting a join of separator-free parts yields the parts back. */
  lemma {:induction false} SplitJoin(parts: seq<string>, sep: char)
    requires |parts| >= 1
    requires forall k :: 0 <= k < |parts| ==> sep !in parts[k]
    ensures Split(Join(parts, [sep]), sep) == parts
    decreases |parts|, |parts[0]|
  {
    var p := parts[0];
    if |p| == 0 {
      if |parts| > 1 {
        var s := Join(parts, [sep]);
        assert s == [sep] + Join(parts[1..], [sep]);
        assert s[1..] == Join(parts[1..], [sep]);
        SplitJoin(parts[1..], sep);
        assert Split(s, sep) == [""] + parts[1..];
      }
    } else {
      var tail := [p[1..]] + parts[1..];
      assert p[0] != sep;
      SplitJoin(tail, sep);
      var s := Join(parts, [sep]);
      var t := Join(tail, [sep]);
      assert tail[1..] == parts[1..];
      assert s == [p[0]] + t;
      assert s[1..] == t;
      assert Split(s, sep) == [[p[0]] + tail[0]] + tail[1..];
      assert [p[0]] + p[1..] == p;
    }
  }

  /** A string without the separator splits into itself. */
  lemma SplitNone(s: string, sep: char)
    requires sep !in s
    ensures Split(s, sep) == [s]
  {
    SplitJoin([s], sep);
  }

  /** Splitting at a separator splits the text on each side of it. */
  lemma SplitAround(a: string, c: string, sep: char)
    ensures Split(a + [sep] + c, sep) == Split(a, sep) + Split(c, sep)
  {
    var pa, pc := Split(a, sep), Split(c, sep);
    JoinSplit(a, sep);
    JoinSplit(c, sep);
    JoinConcat(pa, pc, [sep]);
    PartsAvoidConcat(pa, pc, sep);
    SplitJoin(pa + pc, sep);
  }

  /** Two lists of separator-free parts concatenate into one. */
  lemma PartsAvoidConcat(xs: seq<string>, ys: seq<string>, sep: char)
    requires forall k :: 0 <= k < |xs| ==> sep !in xs[k]
    requires forall k :: 0 <= k < |ys| ==> sep !in ys[k]
    ensures forall k :: 0 <= k < |xs + ys| ==> sep !in (xs + ys)[k]
  {
    forall k | 0 <= k < |xs + ys| ensures sep !in (xs + ys)[k] {
      if k >= |xs| {
        assert (xs + ys)[k] == ys[k - |xs|];
      }
    }
  }

  /** Split of a text closed by the separator, and of the same text with one more closed piece. */
  lemma SplitClosed(b: string, x: string, sep: char)
    requires sep !in x
    ensures Split(b + [sep], sep) == Split(b, sep) + [""]
    ensures Split(b + [sep] + x + [sep], sep) == Split(b, sep) + [x, ""]
  {
    var pb := Split(b, sep);
    var e: string := [];
    var t := x + [sep];
    assert Split(e, sep) == [""];
    SplitAround(b, e, sep);
    assert b + [sep] + e == b + [sep];
    SplitAround(x, e, sep);
    assert x + [sep] + e == t;
    SplitNone(x, sep);
    SplitAround(b, t, sep);
    assert b + [sep] + x + [sep] == b + [sep] + t;
    assert [x] + [""] == [x, ""];
  }

  /** The characters Python's `str.isspace` accepts, which `strip` and `rstrip` remove. */
  predicate IsPySpace(c: char)
  {
    var n := c as int;
    (0x09 <= n <= 0x0D) || (0x1C <= n <= 0x20) || n == 0x85 || n == 0xA0 || n == 0x1680
    || (0x2000 <= n <= 0x200A) || n == 0x2028 || n == 0x2029 || n == 0x202F
    || n == 0x205F || n == 0x3000
  }

  /** `s.strip()` is empty: every character is whitespace. */
  predicate IsBlank(s: string)
  {
    forall k :: 0 <= k < |s| ==> IsPySpace(s[k])
  }

  /** Python's `s.rstrip()`. */
  function RStrip(s: string): (r: string)
    ensures |r| <= |s| && r == s[..|r|]
    ensures forall k :: |r| <= k < |s| ==> IsPySpace(s[k])
    ensures |r| == 0 || !IsPySpace(r[|r| - 1])
  {
    if |s| > 0 && IsPySpace(s[|s| - 1]) then RStrip(s[..|s| - 1]) else s
  }
}
