/** Scope lists: names separated by commas, blanks and tabs. */
module Scopes {
  predicate Separates(c: char) {
    c == ',' || c == ' ' || c == '\t'
  }

  ghost predicate Unbroken(raw: string, i: int, j: int)
    requires 0 <= i <= j <= |raw|
  {
    forall k | i <= k < j :: !Separates(raw[k])
  }

  /** raw[i..j] is a maximal non-empty stretch without separators. */
  ghost predicate IsRun(raw: string, i: int, j: int) {
    && 0 <= i < j <= |raw|
    && Unbroken(raw, i, j)
    && (i > 0 ==> Separates(raw[i - 1]))
    && (j < |raw| ==> Separates(raw[j]))
  }

  /** The runs that end before position n. */
  ghost function RunsBefore(raw: string, n: int): set<string>
    requires n <= |raw| + 1
  {
    set i, j | 0 <= i < j < n && IsRun(raw, i, j) :: raw[i..j]
  }

  /** The scopes that a list names. */
  ghost function Named(raw: string): set<string> {
    RunsBefore(raw, |raw| + 1)
  }

  lemma NamedMeaning(raw: string, w: string)
    ensures w in Named(raw) <==> exists i, j :: IsRun(raw, i, j) && raw[i..j] == w
  {
    if i, j :| IsRun(raw, i, j) && raw[i..j] == w {
      assert raw[i..j] in Named(raw);
    }
  }

  /** Ending the word that began at `start`. */
  lemma NextRuns(raw: string, start: nat, k: nat)
    requires start <= k <= |raw| && Unbroken(raw, start, k) && (start > 0 ==> Separates(raw[start - 1]))
    requires k < |raw| ==> Separates(raw[k])
    ensures RunsBefore(raw, k + 1) == RunsBefore(raw, k) + if start < k then {raw[start..k]} else {}
  {
    forall w
      ensures w in RunsBefore(raw, k + 1) <==> w in RunsBefore(raw, k) || (start < k && w == raw[start..k])
    {
      if w in RunsBefore(raw, k + 1) {
        var i, j :| 0 <= i < j < k + 1 && IsRun(raw, i, j) && w == raw[i..j];
        if j == k {
          assert i >= start;
          assert i <= start;
        }
      }
      if start < k && w == raw[start..k] {
        assert IsRun(raw, start, k);
      }
    }
  }

  /** Going on with a word: no run ends inside it. */
  lemma NoRunEnds(raw: string, k: nat)
    requires k < |raw| && !Separates(raw[k])
    ensures RunsBefore(raw, k + 1) == RunsBefore(raw, k)
  {
  }

  method ParseScopes(raw: string) returns (out: set<string>)
    ensures out == Named(raw)
  {
    out := {};
    var current := "";
    ghost var start: nat := 0;
    for k := 0 to |raw|
      invariant start <= k && current == raw[start..k] && Unbroken(raw, start, k)
      invariant start > 0 ==> Separates(raw[start - 1])
      invariant out == RunsBefore(raw, k)
    {
      var ch := raw[k];
      if Separates(ch) {
        NextRuns(raw, start, k);
        if current != "" {
          out := out + {current};
        }
        current := "";
        start := k + 1;
      } else {
        NoRunEnds(raw, k);
        current := current + [ch];
      }
    }
    NextRuns(raw, start, |raw|);
    if current != "" {
      out := out + {current};
    }
  }

  // ---------------------------------------------------------------- laws

  lemma RunOfLeft(a: string, sep: char, b: string, i: int, j: int)
    requires Separates(sep) && j <= |a|
    ensures IsRun(a + [sep] + b, i, j) <==> IsRun(a, i, j)
    ensures 0 <= i <= j ==> (a + [sep] + b)[i..j] == a[i..j]
  {
    var s := a + [sep] + b;
    assert forall k | 0 <= k < |a| :: s[k] == a[k];
    assert s[|a|] == sep;
  }

  lemma UnbrokenShifts(s: string, b: string, n: nat, i: int, j: int)
    requires |s| == n + |b| && s[n..] == b && 0 <= i <= j <= |b|
    ensures Unbroken(s, n + i, n + j) <==> Unbroken(b, i, j)
  {
    assert forall k | 0 <= k < |b| :: b[k] == s[n + k];
    if Unbroken(s, n + i, n + j) {
      forall k | i <= k < j
        ensures !Separates(b[k])
      {
        assert !Separates(s[n + k]);
      }
    }
    if Unbroken(b, i, j) {
      forall k | n + i <= k < n + j
        ensures !Separates(s[k])
      {
        assert s[k] == b[k - n];
      }
    }
  }

  lemma RunOfRight(a: string, sep: char, b: string, i: int, j: int)
    requires Separates(sep) && 0 <= i
    ensures var n := |a| + 1; IsRun(a + [sep] + b, n + i, n + j) <==> IsRun(b, i, j)
    ensures var n := |a| + 1; i <= j <= |b| ==> (a + [sep] + b)[n + i..n + j] == b[i..j]
  {
    var s, n := a + [sep] + b, |a| + 1;
    assert s[n..] == b && s[|a|] == sep;
    if i < j <= |b| {
      UnbrokenShifts(s, b, n, i, j);
      assert i > 0 ==> s[n + i - 1] == b[i - 1];
      assert j < |b| ==> s[n + j] == b[j];
    }
  }

  /** Parsing two lists joined by a separator gives the union of both parses. */
  lemma UnionOfParts(a: string, sep: char, b: string)
    requires Separates(sep)
    ensures Named(a + [sep] + b) == Named(a) + Named(b)
  {
    var s, n := a + [sep] + b, |a| + 1;
    forall w
      ensures w in Named(s) <==> w in Named(a) + Named(b)
    {
      NamedMeaning(s, w);
      NamedMeaning(a, w);
      NamedMeaning(b, w);
      if w in Named(s) {
        var i, j :| IsRun(s, i, j) && s[i..j] == w;
        assert s[|a|] == sep;
        if j <= |a| {
          RunOfLeft(a, sep, b, i, j);
        } else {
          assert i >= n;
          RunOfRight(a, sep, b, i - n, j - n);
        }
      }
      if w in Named(a) {
        var i, j :| IsRun(a, i, j) && a[i..j] == w;
        RunOfLeft(a, sep, b, i, j);
      }
      if w in Named(b) {
        var i, j :| IsRun(b, i, j) && b[i..j] == w;
        RunOfRight(a, sep, b, i, j);
      }
    }
  }

  function Join(names: seq<string>, sep: char): string
  {
    if names == [] then "" else if |names| == 1 then names[0] else names[0] + [sep] + Join(names[1..], sep)
  }

  ghost predicate IsName(w: string) {
    w != "" && forall c | c in w :: !Separates(c)
  }

  lemma NameAlone(w: string)
    requires IsName(w)
    ensures Named(w) == {w}
  {
    assert forall k | 0 <= k < |w| :: w[k] in w && !Separates(w[k]);
    forall v
      ensures v in Named(w) <==> v == w
    {
      NamedMeaning(w, v);
      assert IsRun(w, 0, |w|) && w[0..|w|] == w;
      if v in Named(w) {
        var i, j :| IsRun(w, i, j) && w[i..j] == v;
        assert i == 0 && j == |w|;
      }
    }
  }

  /** Joining non-empty names without separators and parsing gives exactly these names. */
  lemma {:induction false} JoinRoundTrip(names: seq<string>, sep: char)
    requires Separates(sep)
    requires forall w | w in names :: IsName(w)
    ensures Named(Join(names, sep)) == set w | w in names
  {
    if names == [] {
      assert Named("") == {};
    } else {
      assert names[0] in names;
      NameAlone(names[0]);
      assert names == [names[0]] + names[1..];
      if |names| > 1 {
        JoinRoundTrip(names[1..], sep);
        UnionOfParts(names[0], sep, Join(names[1..], sep));
      }
    }
  }

  /** A comma, a blank or a tab between two names separates them; any other character joins them into one. */
  lemma SeparatorsMeaning(a: string, c: char, b: string)
    requires IsName(a) && IsName(b)
    ensures Named(a + [c] + b) == if c == ',' || c == ' ' || c == '\t' then {a, b} else {a + [c] + b}
  {
    if Separates(c) {
      UnionOfParts(a, c, b);
      NameAlone(a);
      NameAlone(b);
    } else {
      NameAlone(a + [c] + b);
    }
  }
}
