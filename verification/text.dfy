/** The handful of Python `str` operations the service relies on:
    `strip()`, `split()`, `" ".join(...)`, `lower()` and `split("\n")`,
    over strings as sequences of Unicode scalar values. */
module Text {

  /** Python's `str.isspace()` for one character: the whitespace set used by
      `strip()` and `split()` when called without an argument. */
  predicate IsSpace(c: char) {
    || ('\t' <= c <= '\r')
    || ('\U{1C}' <= c <= ' ')
    || c == '\U{85}' || c == '\U{A0}' || c == '\U{1680}'
    || ('\U{2000}' <= c <= '\U{200A}')
    || c == '\U{2028}' || c == '\U{2029}' || c == '\U{202F}'
    || c == '\U{205F}' || c == '\U{3000}'
  }

  predicate AllSpace(s: string) {
    forall k :: 0 <= k < |s| ==> IsSpace(s[k])
  }

  predicate HasNoSpace(s: string) {
    forall k :: 0 <= k < |s| ==> !IsSpace(s[k])
  }

  /** Neither end of `s` is whitespace: `s.strip() == s`. */
  predicate IsStripped(s: string) {
    s == [] || (!IsSpace(s[0]) && !IsSpace(s[|s| - 1]))
  }

  /** Python `s.lstrip()`. */
  function TrimStart(s: string): (r: string)
    ensures |r| <= |s|
    decreases |s|
  {
    if s != [] && IsSpace(s[0]) then TrimStart(s[1..]) else s
  }

  /** `lstrip()` removes exactly the leading run of whitespace: what it
      returns is a suffix of `s` that does not start with whitespace. */
  lemma {:induction false} TrimStartSpec(s: string)
    ensures var r := TrimStart(s);
      && r == s[|s| - |r|..]
      && AllSpace(s[..|s| - |r|])
      && (r == [] || !IsSpace(r[0]))
    decreases |s|
  {
    if s != [] && IsSpace(s[0]) {
      var q := s[1..];
      TrimStartSpec(q);
      var r := TrimStart(s);
      assert r == TrimStart(q);
      assert q[|q| - |r|..] == s[|s| - |r|..];
      var head, qhead := s[..|s| - |r|], q[..|q| - |r|];
      forall k | 0 <= k < |head| ensures IsSpace(head[k]) {
        if k > 0 {
          assert head[k] == qhead[k - 1];
        }
      }
    }
  }

  /** Python `s.rstrip()`. */
  function TrimEnd(s: string): (r: string)
    ensures |r| <= |s|
    decreases |s|
  {
    if s != [] && IsSpace(s[|s| - 1]) then TrimEnd(s[..|s| - 1]) else s
  }

  /** `rstrip()` removes exactly the trailing run of whitespace: what it
      returns is a prefix of `s` that does not end with whitespace. */
  lemma {:induction false} TrimEndSpec(s: string)
    ensures var r := TrimEnd(s);
      && r == s[..|r|]
      && AllSpace(s[|r|..])
      && (r == [] || !IsSpace(r[|r| - 1]))
    decreases |s|
  {
    if s != [] && IsSpace(s[|s| - 1]) {
      var p := s[..|s| - 1];
      TrimEndSpec(p);
      var r := TrimEnd(s);
      assert r == TrimEnd(p);
      assert p[..|r|] == s[..|r|];
      var tail, ptail := s[|r|..], p[|r|..];
      forall k | 0 <= k < |tail| ensures IsSpace(tail[k]) {
        if k < |ptail| {
          assert tail[k] == ptail[k];
        }
      }
    }
  }

  /** Python `s.strip()`: the slice of `s` left after removing the
      whitespace at both ends. */
  function Strip(s: string): string {
    TrimEnd(TrimStart(s))
  }

  /** What `strip()` returns has no whitespace at either end. */
  lemma StripSpec(s: string)
    ensures IsStripped(Strip(s))
  {
    TrimStartSpec(s);
    TrimEndSpec(TrimStart(s));
    var t := TrimStart(s);
    var r := TrimEnd(t);
    if r != [] {
      assert r[0] == t[0];
    }
  }

  lemma {:induction false} TrimStartOverSpaces(a: string, t: string)
    requires AllSpace(a)
    requires t == [] || !IsSpace(t[0])
    ensures TrimStart(a + t) == t
    decreases |a|
  {
    if a != [] {
      assert (a + t)[1..] == a[1..] + t;
      TrimStartOverSpaces(a[1..], t);
    } else {
      assert a + t == t;
    }
  }

  lemma {:induction false} TrimEndOverSpaces(t: string, b: string)
    requires AllSpace(b)
    requires t == [] || !IsSpace(t[|t| - 1])
    ensures TrimEnd(t + b) == t
    decreases |b|
  {
    if b != [] {
      assert (t + b)[..|t + b| - 1] == t + b[..|b| - 1];
      TrimEndOverSpaces(t, b[..|b| - 1]);
    } else {
      assert t + b == t;
    }
  }

  /** `strip()` is characterised independently of how it is computed: the
      stripped core between two runs of whitespace is exactly what it returns. */
  lemma {:induction false} StripExact(a: string, m: string, b: string)
    requires AllSpace(a) && AllSpace(b) && IsStripped(m)
    ensures Strip(a + m + b) == m
  {
    if m == [] {
      assert a + m + b == (a + b) + [];
      TrimStartOverSpaces(a + b, []);
    } else {
      assert a + m + b == a + (m + b);
      TrimStartOverSpaces(a, m + b);
      TrimEndOverSpaces(m, b);
    }
  }

  /** A string without surrounding whitespace is left as it is by `strip()`. */
  lemma StripKeepsStripped(s: string)
    requires IsStripped(s)
    ensures Strip(s) == s
  {
    assert [] + s + [] == s;
    StripExact([], s, []);
  }

  /** Length of the leading run of non-whitespace characters of `t`. */
  function RunLength(t: string): (n: nat)
    ensures n <= |t|
    ensures HasNoSpace(t[..n])
    ensures n == |t| || IsSpace(t[n])
  {
    if t == [] || IsSpace(t[0]) then 0 else 1 + RunLength(t[1..])
  }

  /** Non-empty tokens free of whitespace, as `split()` produces them. */
  predicate AreWords(ws: seq<string>) {
    forall k :: 0 <= k < |ws| ==> ws[k] != [] && HasNoSpace(ws[k])
  }

  /** Python `s.split()`: the maximal runs of non-whitespace characters,
      in order. */
  function Split(s: string): (ws: seq<string>)
    decreases |s|
  {
    var t := TrimStart(s);
    if t == [] then []
    else
      var n := RunLength(t);
      [t[..n]] + Split(t[n..])
  }

  /** Every piece `split()` returns is a non-empty token free of whitespace. */
  lemma {:induction false} SplitGivesWords(s: string)
    ensures AreWords(Split(s))
    decreases |s|
  {
    var t := TrimStart(s);
    TrimStartSpec(s);
    if t != [] {
      var n := RunLength(t);
      var head, rest := t[..n], Split(t[n..]);
      SplitGivesWords(t[n..]);
      assert Split(s) == [head] + rest;
      forall k | 0 <= k < |rest| + 1
        ensures ([head] + rest)[k] != [] && HasNoSpace(([head] + rest)[k])
      {
        if k > 0 {
          assert ([head] + rest)[k] == rest[k - 1];
        }
      }
    }
  }

  /** `lstrip()` looks through any whitespace prefix. */
  lemma {:induction false} TrimStartSkipsSpace(m: string, s: string)
    requires AllSpace(m)
    ensures TrimStart(m + s) == TrimStart(s)
    decreases |m|
  {
    if m != [] {
      assert (m + s)[1..] == m[1..] + s;
      TrimStartSkipsSpace(m[1..], s);
    } else {
      assert m + s == s;
    }
  }

  /** `split()` ignores leading whitespace of any kind and length. */
  lemma SplitSkipsSpace(m: string, s: string)
    requires AllSpace(m)
    ensures Split(m + s) == Split(s)
  {
    TrimStartSkipsSpace(m, s);
  }

  /** A whitespace-free word followed by the end of the text or by
      whitespace of any kind is the first piece of `split()`. Together with
      `SplitSkipsSpace` and `Split("") == []` this pins `split()` on every
      string. */
  lemma SplitWord(w: string, b: string)
    requires w != [] && HasNoSpace(w)
    requires b == [] || IsSpace(b[0])
    ensures Split(w + b) == [w] + Split(b)
  {
    var s := w + b;
    assert s[0] == w[0];
    assert TrimStart(s) == s;
    RunLengthOfWord(w, b);
    assert s[..|w|] == w;
    assert s[|w|..] == b;
  }

  /** A tab separates words just as a space does. */
  lemma SplitTabExample()
    ensures Split("a\tb") == ["a", "b"]
  {
    var a, tab, b: string := "a", "\t", "b";
    assert IsSpace(tab[0]) && AllSpace(tab);
    assert HasNoSpace(a) && HasNoSpace(b);
    SplitWord(b, []);
    assert b + [] == b;
    SplitSkipsSpace(tab, b);
    SplitWord(a, tab + b);
    assert a + (tab + b) == "a\tb";
  }

  /** Python `sep.join(ws)`. */
  function Join(ws: seq<string>, sep: string): string {
    if |ws| == 0 then []
    else if |ws| == 1 then ws[0]
    else ws[0] + sep + Join(ws[1..], sep)
  }

  /** The leading run of `w + rest` is exactly `w` when `w` has no
      whitespace and `rest` is empty or starts with whitespace. */
  lemma {:induction false} RunLengthOfWord(w: string, rest: string)
    requires HasNoSpace(w)
    requires rest == [] || IsSpace(rest[0])
    ensures RunLength(w + rest) == |w|
    decreases |w|
  {
    if w != [] {
      assert (w + rest)[1..] == w[1..] + rest;
      RunLengthOfWord(w[1..], rest);
    } else {
      assert w + rest == rest;
    }
  }

  lemma SplitCons(w: string, j: string)
    requires w != [] && HasNoSpace(w)
    requires j == [] || !IsSpace(j[0])
    ensures Split(w + " " + j) == [w] + Split(j)
  {
    var s := w + " " + j;
    assert s == w + ([' '] + j);
    assert s[0] == w[0];
    assert TrimStart(s) == s;
    RunLengthOfWord(w, [' '] + j);
    assert s[..|w|] == w;
    assert s[|w|..] == [' '] + j;
    assert ([' '] + j)[1..] == j;
    assert TrimStart([' '] + j) == TrimStart(j);
  }

  lemma SplitSingle(w: string)
    requires w != [] && HasNoSpace(w)
    ensures Split(w) == [w]
  {
    assert TrimStart(w) == w;
    RunLengthOfWord(w, []);
    assert w + [] == w;
    assert w[..|w|] == w;
    assert w[|w|..] == [];
  }

  lemma JoinSplitStep(ws: seq<string>)
    requires |ws| > 1 && AreWords(ws)
    requires Split(Join(ws[1..], " ")) == ws[1..]
    ensures Split(Join(ws, " ")) == ws
  {
    var rest := ws[1..];
    var j := Join(rest, " ");
    assert Join(ws, " ") == ws[0] + " " + j;
    assert rest[0] == ws[1];
    JoinStartsWithFirst(rest, " ");
    SplitCons(ws[0], j);
    assert ws == [ws[0]] + rest;
  }

  /** Words that carry no whitespace survive a round trip through
      `" ".join(...)` and `split()` unchanged. */
  lemma {:induction false} SplitJoin(ws: seq<string>)
    requires AreWords(ws)
    ensures Split(Join(ws, " ")) == ws
    decreases |ws|
  {
    if |ws| == 0 {
      assert Join(ws, " ") == [];
      assert TrimStart([]) == [];
    } else if |ws| == 1 {
      assert Join(ws, " ") == ws[0];
      SplitSingle(ws[0]);
    } else {
      var rest := ws[1..];
      assert AreWords(rest) by {
        forall k | 0 <= k < |rest| ensures rest[k] != [] && HasNoSpace(rest[k]) {
          assert rest[k] == ws[k + 1];
        }
      }
      SplitJoin(rest);
      JoinSplitStep(ws);
    }
  }

  lemma {:induction false} JoinStartsWithFirst(ws: seq<string>, sep: string)
    requires |ws| >= 1 && ws[0] != []
    ensures Join(ws, sep) != [] && Join(ws, sep)[0] == ws[0][0]
  {
  }

  /** Python `str.lower()` for ASCII letters. */
  function LowerChar(c: char): char {
    if 'A' <= c <= 'Z' then (c as int + 32) as char else c
  }

  function Lower(s: string): string {
    if s == [] then [] else [LowerChar(s[0])] + Lower(s[1..])
  }

  predicate HasNoUpper(s: string) {
    forall k :: 0 <= k < |s| ==> !('A' <= s[k] <= 'Z')
  }

  /** `lower()` maps character by character and leaves no ASCII capital. */
  lemma {:induction false} LowerSpec(s: string)
    ensures |Lower(s)| == |s|
    ensures forall k :: 0 <= k < |s| ==> Lower(s)[k] == LowerChar(s[k])
    ensures HasNoUpper(Lower(s))
  {
    if s != [] {
      LowerSpec(s[1..]);
      var r := Lower(s);
      assert r == [LowerChar(s[0])] + Lower(s[1..]);
      forall k | 0 < k < |s| ensures r[k] == LowerChar(s[k]) {
        assert r[k] == Lower(s[1..])[k - 1];
      }
    }
  }

  /** `lower()` leaves a string without capitals as it is; in particular
      it is idempotent. */
  lemma LowerFixes(s: string)
    requires HasNoUpper(s)
    ensures Lower(s) == s
  {
    LowerSpec(s);
  }

  /** Position of the first `c` in `s`. */
  function IndexOf(s: string, c: char): (k: nat)
    requires c in s
    ensures k < |s| && s[k] == c && c !in s[..k]
  {
    if s[0] == c then 0
    else
      assert s == [s[0]] + s[1..];
      var k := IndexOf(s[1..], c);
      assert s[..k + 1] == [s[0]] + s[1..][..k];
      k + 1
  }

  /** Python `s.split(sep)` for a one-character separator: never empty. */
  function SplitOn(s: string, c: char): (parts: seq<string>)
    ensures |parts| >= 1
    decreases |s|
  {
    if c !in s then [s]
    else
      var k := IndexOf(s, c);
      [s[..k]] + SplitOn(s[k + 1..], c)
  }

  /** Lines that do not contain the separator come back unchanged when the
      joined text is split again. */
  lemma {:induction false} SplitOnJoin(ls: seq<string>, c: char)
    requires |ls| >= 1
    requires forall k :: 0 <= k < |ls| ==> c !in ls[k]
    ensures SplitOn(Join(ls, [c]), c) == ls
    decreases |ls|
  {
    if |ls| > 1 {
      var l, j := ls[0], Join(ls[1..], [c]);
      var s := l + [c] + j;
      assert Join(ls, [c]) == s;
      assert s[|l|] == c;
      var k := IndexOf(s, c);
      assert forall i :: 0 <= i < |l| ==> s[i] == l[i];
      assert forall i :: 0 <= i < k ==> s[..k][i] == s[i];
      assert k == |l|;
      assert s[..k] == l;
      assert s[k + 1..] == j;
      SplitOnJoin(ls[1..], c);
      assert ls == [l] + ls[1..];
    }
  }

  /** The last character of a join is the last character of the last part. */
  lemma {:induction false} JoinEndsWithLast(ws: seq<string>, sep: string)
    requires |ws| >= 1 && ws[|ws| - 1] != []
    ensures Join(ws, sep) != []
    ensures Join(ws, sep)[|Join(ws, sep)| - 1] == ws[|ws| - 1][|ws[|ws| - 1]| - 1]
    decreases |ws|
  {
    if |ws| > 1 {
      JoinEndsWithLast(ws[1..], sep);
      assert ws[1..][|ws[1..]| - 1] == ws[|ws| - 1];
    }
  }

  /** Words without surrounding whitespace, joined by single spaces, have
      none either. */
  lemma JoinIsStripped(ws: seq<string>)
    requires |ws| >= 1
    requires forall k :: 0 <= k < |ws| ==> ws[k] != [] && IsStripped(ws[k])
    ensures IsStripped(Join(ws, " "))
  {
    var l := ws[|ws| - 1];
    JoinStartsWithFirst(ws, " ");
    JoinEndsWithLast(ws, " ");
    assert ws[0] != [] && IsStripped(ws[0]);
    assert l != [] && IsStripped(l);
  }

  /** `strip()` leaves such a join unchanged. */
  lemma JoinStripped(ws: seq<string>)
    requires |ws| >= 1
    requires forall k :: 0 <= k < |ws| ==> ws[k] != [] && IsStripped(ws[k])
    ensures Strip(Join(ws, " ")) == Join(ws, " ")
  {
    JoinIsStripped(ws);
    StripKeepsStripped(Join(ws, " "));
  }

  /** A character that is neither in any part nor in the separator is not
      in the join. */
  lemma {:induction false} JoinAvoids(ws: seq<string>, sep: string, c: char)
    requires c !in sep
    requires forall k :: 0 <= k < |ws| ==> c !in ws[k]
    ensures c !in Join(ws, sep)
    decreases |ws|
  {
    if |ws| > 1 {
      JoinAvoids(ws[1..], sep, c);
    }
  }

  /** `strip()` only removes characters: one absent from `s` is absent from
      the result. */
  lemma StripWithin(s: string, c: char)
    requires c !in s
    ensures c !in Strip(s)
  {
    var t := TrimStart(s);
    var r := Strip(s);
    TrimStartSpec(s);
    TrimEndSpec(t);
    assert r == t[..|r|] && t == s[|s| - |t|..];
    forall k | 0 <= k < |r| ensures r[k] != c {
      assert r[k] == s[|s| - |t| + k];
    }
  }
}
