/** `read_label`: a tab-separated label file, one entry per line. */
module Labels {

  /** The characters Python 2's `str.rstrip()` removes: space, tab, newline,
      carriage return, vertical tab and form feed. */
  predicate IsSpace(c: char)
  {
    c == ' ' || c == '\t' || c == '\n' || c == '\r' || c as int == 11 || c as int == 12
  }

  /** `line.rstrip()`. */
  function RStrip(s: string): (r: string)
    ensures r <= s && (r == [] || !IsSpace(r[|r| - 1]))
    ensures forall k :: |r| <= k < |s| ==> IsSpace(s[k])
  {
    if s != [] && IsSpace(s[|s| - 1]) then RStrip(s[..|s| - 1]) else s
  }

  /** `s.split(sep)`: the pieces between separators, empty ones included. */
  function SplitOn(s: string, sep: char): (r: seq<string>)
    ensures |r| >= 1
  {
    if s == [] then [""]
    else if s[0] == sep then [""] + SplitOn(s[1..], sep)
    else
      var rest := SplitOn(s[1..], sep);
      [[s[0]] + rest[0]] + rest[1..]
  }

  /** `sep.join(parts)`. */
  function Join(parts: seq<string>, sep: char): string
    requires |parts| >= 1
  {
    if |parts| == 1 then parts[0] else parts[0] + [sep] + Join(parts[1..], sep)
  }

  /** Joining the pieces of a split gives the string back. */
  lemma {:induction false} JoinSplit(s: string, sep: char)
    ensures Join(SplitOn(s, sep), sep) == s
  {
    if s != [] {
      JoinSplit(s[1..], sep);
      var rest := SplitOn(s[1..], sep);
      assert s == [s[0]] + s[1..];
      if s[0] == sep {
        JoinEmptyFirst(rest, sep);
      } else {
        JoinCons(s[0], rest, sep);
      }
    }
  }

  /** An empty first piece leaves just the separator in front. */
  lemma JoinEmptyFirst(rest: seq<string>, sep: char)
    requires |rest| >= 1
    ensures Join([""] + rest, sep) == [sep] + Join(rest, sep)
  {
    assert ([""] + rest)[1..] == rest;
  }

  /** Prefixing the first piece with c prefixes the joined string with c. */
  lemma JoinCons(c: char, rest: seq<string>, sep: char)
    requires |rest| >= 1
    ensures Join([[c] + rest[0]] + rest[1..], sep) == [c] + Join(rest, sep)
  {
    var r := [[c] + rest[0]] + rest[1..];
    if |rest| > 1 {
      assert r[1..] == rest[1..];
      assert Join(r, sep) == ([c] + rest[0]) + [sep] + Join(rest[1..], sep);
    }
  }

  /** No piece of a split holds the separator, and there is a single piece
      exactly when there was no separator. */
  lemma {:induction false} SplitPieces(s: string, sep: char)
    ensures forall k :: 0 <= k < |SplitOn(s, sep)| ==> sep !in SplitOn(s, sep)[k]
    ensures |SplitOn(s, sep)| == 1 <==> sep !in s
  {
    if s != [] {
      SplitPieces(s[1..], sep);
      var rest := SplitOn(s[1..], sep);
      var r := SplitOn(s, sep);
      assert s == [s[0]] + s[1..];
      if s[0] == sep {
        assert r[1..] == rest;
      } else {
        assert sep !in [s[0]] + rest[0];
        forall k | 1 <= k < |r| ensures sep !in r[k] {
          assert r[k] == rest[k];
        }
      }
    }
  }

  /** Splitting and joining back gives the string; no piece holds the
      separator; a single piece means there was no separator. */
  lemma SplitJoin(s: string, sep: char)
    ensures Join(SplitOn(s, sep), sep) == s
    ensures forall k :: 0 <= k < |SplitOn(s, sep)| ==> sep !in SplitOn(s, sep)[k]
    ensures |SplitOn(s, sep)| == 1 <==> sep !in s
  {
    JoinSplit(s, sep);
    SplitPieces(s, sep);
  }

  /** With a separator present, the first two pieces are the text before the
      first separator and the text after it up to the next separator or the
      end. */
  lemma TwoColumns(s: string, sep: char)
    requires |SplitOn(s, sep)| > 1
    ensures var c := SplitOn(s, sep); c[0] + [sep] + c[1] <= s
    ensures var c := SplitOn(s, sep); var p := |c[0]| + 1 + |c[1]|; p == |s| || s[p] == sep
  {
    var c := SplitOn(s, sep);
    SplitJoin(s, sep);
    assert Join(c, sep) == c[0] + [sep] + Join(c[1..], sep);
    if |c| == 2 {
      assert Join(c[1..], sep) == c[1];
    } else {
      assert Join(c[1..], sep) == c[1] + [sep] + Join(c[2..], sep);
      assert s == (c[0] + [sep] + c[1]) + [sep] + Join(c[2..], sep);
    }
  }

  function DigitChar(d: nat): char
    requires d < 10
  {
    (48 + d) as char
  }

  /** `str(i)`. */
  function NatStr(i: nat): (s: string)
    ensures |s| >= 1
  {
    if i < 10 then [DigitChar(i)] else NatStr(i / 10) + [DigitChar(i % 10)]
  }

  /** The number a string of decimal digits spells. */
  function ParseNat(s: string): int
  {
    if s == [] then 0 else 10 * ParseNat(s[..|s| - 1]) + (s[|s| - 1] as int - 48)
  }

  lemma {:induction false} ParseNatStr(i: nat)
    ensures ParseNat(NatStr(i)) == i
  {
    if i >= 10 {
      ParseNatStr(i / 10);
      var s := NatStr(i);
      assert s[..|s| - 1] == NatStr(i / 10);
    }
  }

  /** Distinct line numbers give distinct keys. */
  lemma NatStrInjective(i: nat, j: nat)
    requires NatStr(i) == NatStr(j)
    ensures i == j
  {
    ParseNatStr(i);
    ParseNatStr(j);
  }

  /** The entry line i contributes: `c = line.rstrip().split('\t')`, then
      `c[0] -> c[1]` when there are two columns or more, else
      `str(i) -> c[0]`. The key is the text before the first tab and the
      value the text after it up to the next tab or the end. */
  function Entry(line: string, i: nat): (e: (string, string))
    ensures '\t' !in RStrip(line) ==> e == (NatStr(i), RStrip(line))
    ensures '\t' in RStrip(line) ==>
      '\t' !in e.0 && '\t' !in e.1 && e.0 + "\t" + e.1 <= RStrip(line)
    ensures '\t' in RStrip(line) ==>
      var p := |e.0| + 1 + |e.1|; p == |RStrip(line)| || RStrip(line)[p] == '\t'
  {
    var c := SplitOn(RStrip(line), '\t');
    SplitJoin(RStrip(line), '\t');
    if |c| > 1 then
      TwoColumns(RStrip(line), '\t');
      (c[0], c[1])
    else
      (NatStr(i), c[0])
  }

  /** The keys of `table` are those of the first i entries. */
  ghost predicate KeysOf(es: seq<(string, string)>, i: nat, table: map<string, string>)
    requires i <= |es|
  {
    forall k :: k in table <==> exists t :: 0 <= t < i && es[t].0 == k
  }

  /** Among the first i entries, one whose key no later one repeats has its
      value in `table`. */
  ghost predicate LastWins(es: seq<(string, string)>, i: nat, table: map<string, string>)
    requires i <= |es|
  {
    forall t :: 0 <= t < i && (forall j :: t < j < i ==> es[j].0 != es[t].0) ==>
      es[t].0 in table && table[es[t].0] == es[t].1
  }

  /** Storing entry i extends both to the first i + 1 entries. */
  lemma TableStep(es: seq<(string, string)>, i: nat, table: map<string, string>)
    requires i < |es| && KeysOf(es, i, table) && LastWins(es, i, table)
    ensures KeysOf(es, i + 1, table[es[i].0 := es[i].1]) && LastWins(es, i + 1, table[es[i].0 := es[i].1])
  {
    var table' := table[es[i].0 := es[i].1];
    forall k | k in table' ensures exists t :: 0 <= t < i + 1 && es[t].0 == k {
      if k != es[i].0 {
        assert k in table;
        var t :| 0 <= t < i && es[t].0 == k;
        assert es[t].0 == k;
      }
    }
    forall t | 0 <= t < i + 1 ensures es[t].0 in table' {
      if t < i {
        assert es[t].0 in table;
      }
    }
    forall t | 0 <= t < i + 1 && (forall j :: t < j < i + 1 ==> es[j].0 != es[t].0)
      ensures table'[es[t].0] == es[t].1
    {
      if t < i {
        assert es[i].0 != es[t].0;
        assert table[es[t].0] == es[t].1;
      }
    }
  }

  /** The entries of the lines, in order. */
  function Entries(lines: seq<string>): (es: seq<(string, string)>)
    ensures |es| == |lines|
  {
    seq(|lines|, t requires 0 <= t < |lines| => Entry(lines[t], t))
  }

  /** `read_label` on the lines of the file: every line counts towards `i`,
      the table's keys are exactly the lines' keys, and a later line with
      the same key replaces the earlier value. */
  method ReadLabel(lines: seq<string>) returns (table: map<string, string>)
    ensures KeysOf(Entries(lines), |lines|, table)
    ensures LastWins(Entries(lines), |lines|, table)
  {
    ghost var es := Entries(lines);
    table := map[];
    var i := 0;
    while i < |lines|
      invariant 0 <= i <= |lines|
      invariant KeysOf(es, i, table) && LastWins(es, i, table)
    {
      var e := Entry(lines[i], i);
      assert e == es[i];
      TableStep(es, i, table);
      table := table[e.0 := e.1];
      i := i + 1;
    }
  }
}
