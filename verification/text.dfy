/**
  The .NET string operations the attribute helpers rely on, with ordinal
  (culture-free) character comparison: `Trim()`, `Trim(char)`, `TrimEnd(char)`
  and `EndsWith(string)`.
*/
module Text {

  /** The characters for which .NET's `char.IsWhiteSpace` holds; `string.Trim()` removes these. */
  const WhiteSpace: set<char> :=
    {'\t', '\n', '\U{B}', '\U{C}', '\r', ' ', '\U{85}', '\U{A0}', '\U{1680}',
     '\U{2000}', '\U{2001}', '\U{2002}', '\U{2003}', '\U{2004}', '\U{2005}',
     '\U{2006}', '\U{2007}', '\U{2008}', '\U{2009}', '\U{200A}',
     '\U{2028}', '\U{2029}', '\U{202F}', '\U{205F}', '\U{3000}'}

  /** True when every character of `s` belongs to `cs`. */
  predicate AllIn(s: string, cs: set<char>) {
    forall k :: 0 <= k < |s| ==> s[k] in cs
  }

  /** True when `s[lo..hi]` is made only of characters of `cs`. */
  predicate AllInRange(s: string, lo: int, hi: int, cs: set<char>) {
    forall k :: lo <= k < hi && 0 <= k < |s| ==> s[k] in cs
  }

  /** `s` with every leading character that belongs to `cs` removed. */
  function TrimStart(s: string, cs: set<char>): (r: string)
    ensures |r| <= |s| && r == s[|s| - |r|..]
    ensures AllInRange(s, 0, |s| - |r|, cs)
    ensures r == [] || r[0] !in cs
  {
    if s != [] && s[0] in cs then TrimStart(s[1..], cs) else s
  }

  /** `s` with every trailing character that belongs to `cs` removed (.NET `TrimEnd(char)`). */
  function TrimEnd(s: string, cs: set<char>): (r: string)
    ensures |r| <= |s| && r == s[..|r|]
    ensures AllInRange(s, |r|, |s|, cs)
    ensures r == [] || r[|r| - 1] !in cs
  {
    if s != [] && s[|s| - 1] in cs then TrimEnd(s[..|s| - 1], cs) else s
  }

  /**
    `s` with every leading and every trailing character of `cs` removed: .NET
    `Trim()` when `cs` is `WhiteSpace`, `Trim(c)` when `cs` is `{c}`. The result
    is the slice `s[i..j]` between two runs made only of `cs` characters, and it
    neither starts nor ends with one.
  */
  function Trim(s: string, cs: set<char>): (r: string)
    ensures exists i, j :: 0 <= i <= j <= |s| && r == s[i..j] && AllInRange(s, 0, i, cs) && AllInRange(s, j, |s|, cs)
    ensures r == [] || (r[0] !in cs && r[|r| - 1] !in cs)
  {
    TrimIsSlice(s, cs);
    TrimStart(TrimEnd(s, cs), cs)
  }

  lemma TrimIsSlice(s: string, cs: set<char>)
    ensures var e := TrimEnd(s, cs);
            var r := TrimStart(e, cs);
            var i := |e| - |r|;
            0 <= i <= |e| <= |s| && r == s[i..|e|] && AllInRange(s, 0, i, cs) && AllInRange(s, |e|, |s|, cs)
  {
    var e := TrimEnd(s, cs);
    var r := TrimStart(e, cs);
    var i := |e| - |r|;
    var n := |e|;
    assert e == s[..n];
    assert r == e[i..];
    assert s[..n][i..] == s[i..n];
    assert AllInRange(s, 0, i, cs) by {
      assert AllInRange(e, 0, i, cs);
      assert forall k :: 0 <= k < i ==> e[k] == s[k];
    }
  }

  /** Ordinal `EndsWith`: the last `|suffix|` characters of `s` are those of `suffix`, one by one. */
  predicate EndsWith(s: string, suffix: string): (b: bool)
    ensures b <==> |suffix| <= |s| && forall k :: 0 <= k < |suffix| ==> s[|s| - |suffix| + k] == suffix[k]
  {
    |suffix| <= |s| && s[|s| - |suffix|..] == suffix
  }

  /** A string ends with `suffix` exactly when it is some prefix followed by `suffix`. */
  lemma EndsWithAppend(s: string, suffix: string)
    ensures EndsWith(s, suffix) <==> |suffix| <= |s| && s == s[..|s| - |suffix|] + suffix
  {
    if |suffix| <= |s| {
      assert s == s[..|s| - |suffix|] + s[|s| - |suffix|..];
    }
  }

  /** Leading characters of `cs` are all dropped, whatever follows them. */
  lemma {:induction false} TrimStartSkips(w: string, s: string, cs: set<char>)
    requires AllIn(w, cs)
    ensures TrimStart(w + s, cs) == TrimStart(s, cs)
  {
    if w != [] {
      assert (w + s)[1..] == w[1..] + s;
      TrimStartSkips(w[1..], s, cs);
    } else {
      assert w + s == s;
    }
  }

  /** Trailing characters of `cs` are all dropped, whatever precedes them. */
  lemma {:induction false} TrimEndSkips(s: string, w: string, cs: set<char>)
    requires AllIn(w, cs)
    ensures TrimEnd(s + w, cs) == TrimEnd(s, cs)
  {
    if w != [] {
      var w' := w[..|w| - 1];
      assert (s + w)[..|s + w| - 1] == s + w';
      TrimEndSkips(s, w', cs);
    } else {
      assert s + w == s;
    }
  }

  /** Trimming leaves alone a string whose first and last characters are outside `cs`. */
  lemma TrimKeeps(s: string, cs: set<char>)
    requires s != [] && s[0] !in cs && s[|s| - 1] !in cs
    ensures Trim(s, cs) == s
  {
  }

  /** Trimming removes surrounding runs of `cs` and nothing else. */
  lemma TrimSurrounded(w1: string, s: string, w2: string, cs: set<char>)
    requires AllIn(w1, cs) && AllIn(w2, cs)
    requires s != [] && s[0] !in cs && s[|s| - 1] !in cs
    ensures Trim(w1 + s + w2, cs) == s
  {
    TrimEndSkips(w1 + s, w2, cs);
    assert (w1 + s)[|w1 + s| - 1] == s[|s| - 1];
    TrimStartSkips(w1, s, cs);
  }

  /**
    The shape of a `Name =` clause: trimming white space, then trailing
    separators, then white space again leaves the bare name.
  */
  lemma TrimNameClause(lead: string, name: string, gap: string, sep: char, trail: string, ws: set<char>)
    requires sep !in ws
    requires AllIn(lead, ws) && AllIn(gap, ws) && AllIn(trail, ws)
    requires name != [] && name[0] !in ws && name[|name| - 1] !in ws && name[|name| - 1] != sep
    ensures Trim(TrimEnd(Trim(lead + name + gap + [sep] + trail, ws), {sep}), ws) == name
  {
    ClauseTrimmed(lead, name, gap, sep, trail, ws);
    SeparatorDropped(name, gap, sep, ws);
    TrimTrailing(name, gap, ws);
  }

  lemma ClauseTrimmed(lead: string, name: string, gap: string, sep: char, trail: string, ws: set<char>)
    requires sep !in ws && AllIn(lead, ws) && AllIn(trail, ws)
    requires name != [] && name[0] !in ws
    ensures Trim(lead + name + gap + [sep] + trail, ws) == name + gap + [sep]
  {
    var clause := name + gap + [sep];
    assert lead + name + gap + [sep] + trail == lead + clause + trail;
    assert clause[0] == name[0] && clause[|clause| - 1] == sep;
    TrimSurrounded(lead, clause, trail, ws);
  }

  lemma SeparatorDropped(name: string, gap: string, sep: char, ws: set<char>)
    requires sep !in ws && AllIn(gap, ws)
    requires name != [] && name[|name| - 1] != sep
    ensures TrimEnd(name + gap + [sep], {sep}) == name + gap
  {
    var padded := name + gap;
    assert padded[|padded| - 1] !in {sep} by {
      if gap == [] {
        assert padded[|padded| - 1] == name[|name| - 1];
      } else {
        assert padded[|padded| - 1] == gap[|gap| - 1];
      }
    }
    TrimEndSkips(padded, [sep], {sep});
    TrimEndKeeps(padded, {sep});
  }

  /** `TrimEnd` leaves alone a string whose last character is outside the set. */
  lemma TrimEndKeeps(s: string, cs: set<char>)
    requires s != [] && s[|s| - 1] !in cs
    ensures TrimEnd(s, cs) == s
  {
  }

  /** Trailing white space after a name is trimmed away. */
  lemma TrimTrailing(name: string, gap: string, ws: set<char>)
    requires AllIn(gap, ws)
    requires name != [] && name[0] !in ws && name[|name| - 1] !in ws
    ensures Trim(name + gap, ws) == name
  {
    TrimSurrounded([], name, gap, ws);
    assert [] + name + gap == name + gap;
  }

  /** Text made only of characters of the set trims to nothing. */
  lemma TrimAllIn(s: string, cs: set<char>)
    requires AllIn(s, cs)
    ensures Trim(s, cs) == []
  {
    TrimEndSkips([], s, cs);
    assert [] + s == s;
  }
}
