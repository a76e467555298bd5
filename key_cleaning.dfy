/** `limpar_chave`: the label of a result row is cleaned by replacing
    every run of whitespace with one space (`re.sub(r"\s+", " ", …)`) and
    then stripping whitespace from both ends (`str.strip()`). */
module KeyCleaning {

  /** The characters Python treats as whitespace, both for `\s` in a
      `str` pattern and for `str.strip()`: the code points for which
      `str.isspace()` holds, namely U+0009 to U+000D, U+001C to U+001F,
      U+0020, U+0085, U+00A0, U+1680, U+2000 to U+200A, U+2028, U+2029,
      U+202F, U+205F and U+3000. */
  predicate IsSpace(c: char) {
    || c == ' '
    || '\t' <= c <= '\r'
    || '\U{1C}' <= c <= '\U{1F}'
    || c == '\U{85}' || c == '\U{A0}' || c == '\U{1680}'
    || '\U{2000}' <= c <= '\U{200A}'
    || c == '\U{2028}' || c == '\U{2029}' || c == '\U{202F}'
    || c == '\U{205F}' || c == '\U{3000}'
  }

  /** Whitespace occurs only as single plain spaces: every whitespace
      character is `' '` and no two whitespace characters are adjacent. */
  ghost predicate Collapsed(s: string) {
    && (forall i :: 0 <= i < |s| && IsSpace(s[i]) ==> s[i] == ' ')
    && (forall i, j :: 0 <= i < j < |s| && j == i + 1 ==> !IsSpace(s[i]) || !IsSpace(s[j]))
  }

  /** What a clean label looks like: collapsed, and no whitespace at
      either end. */
  ghost predicate Normalized(s: string) {
    && Collapsed(s)
    && (s != [] ==> !IsSpace(s[0]) && !IsSpace(s[|s| - 1]))
  }

  /** The non-whitespace characters of `s`, in order. */
  function NonSpace(s: string): string
  {
    if s == [] then [] else (if IsSpace(s[0]) then [] else [s[0]]) + NonSpace(s[1..])
  }

  /** Python's `str.lstrip()`. */
  function TrimStart(s: string): (r: string)
    ensures |r| <= |s| && r == s[|s| - |r|..]
    ensures r == [] || !IsSpace(r[0])
    ensures forall i :: 0 <= i < |s| - |r| ==> IsSpace(s[i])
  {
    if s != [] && IsSpace(s[0]) then TrimStart(s[1..]) else s
  }

  /** Python's `str.rstrip()`. */
  function TrimEnd(s: string): (r: string)
    ensures |r| <= |s| && r == s[..|r|]
    ensures r == [] || !IsSpace(r[|r| - 1])
    ensures forall i :: |r| <= i < |s| ==> IsSpace(s[i])
  {
    if s != [] && IsSpace(s[|s| - 1]) then TrimEnd(s[..|s| - 1]) else s
  }

  /** `re.sub(r"\s+", " ", s)`: each maximal run of whitespace becomes one
      plain space. */
  function CollapseSpaces(s: string): string
    decreases |s|
  {
    if s == [] then
      []
    else if IsSpace(s[0]) then
      " " + CollapseSpaces(TrimStart(s))
    else
      [s[0]] + CollapseSpaces(s[1..])
  }

  /** The result of collapsing is collapsed, and starts with whitespace
      exactly when the input does. */
  lemma {:induction false} CollapseSpacesCollapsed(s: string)
    ensures Collapsed(CollapseSpaces(s))
    ensures CollapseSpaces(s) == [] <==> s == []
    ensures s != [] ==> (IsSpace(CollapseSpaces(s)[0]) <==> IsSpace(s[0]))
    decreases |s|
  {
    if s != [] {
      var rest := if IsSpace(s[0]) then TrimStart(s) else s[1..];
      CollapseSpacesCollapsed(rest);
      var tail := CollapseSpaces(rest);
      var r := CollapseSpaces(s);
      assert r == [r[0]] + tail;
      assert IsSpace(s[0]) ==> tail == [] || !IsSpace(tail[0]);
      forall i, j | 0 <= i < j < |r| && j == i + 1
        ensures !IsSpace(r[i]) || !IsSpace(r[j])
      {
        if i > 0 { assert r[i] == tail[i - 1] && r[j] == tail[j - 1]; }
      }
      forall i | 0 <= i < |r| && IsSpace(r[i])
        ensures r[i] == ' '
      {
        if i > 0 { assert r[i] == tail[i - 1]; }
      }
    }
  }

  /** `limpar_chave`. */
  function CleanKey(s: string): string
  {
    TrimEnd(TrimStart(CollapseSpaces(s)))
  }

  /** A slice of a collapsed string is collapsed. */
  lemma CollapsedSlice(s: string, a: nat, b: nat)
    requires Collapsed(s) && a <= b <= |s|
    ensures Collapsed(s[a..b])
  {
    var t := s[a..b];
    forall i | 0 <= i < |t|
      ensures t[i] == s[a + i]
    {
    }
  }

  /** Stripping the start keeps a string collapsed. */
  lemma CollapsedTrimStart(c: string)
    requires Collapsed(c)
    ensures Collapsed(TrimStart(c))
  {
    CollapsedSlice(c, |c| - |TrimStart(c)|, |c|);
  }

  /** Stripping the end keeps a string collapsed. */
  lemma CollapsedTrimEnd(c: string)
    requires Collapsed(c)
    ensures Collapsed(TrimEnd(c))
  {
    CollapsedSlice(c, 0, |TrimEnd(c)|);
  }

  /** Stripping both ends of a collapsed string normalizes it. */
  lemma NormalizedTrim(c: string)
    requires Collapsed(c)
    ensures Normalized(TrimEnd(TrimStart(c)))
  {
    var t := TrimStart(c);
    CollapsedTrimStart(c);
    var r := TrimEnd(t);
    CollapsedTrimEnd(t);
    if r != [] {
      assert r[0] == t[0];
    }
  }

  /** Every cleaned label is normalized. */
  lemma CleanKeyNormalized(s: string)
    ensures Normalized(CleanKey(s))
  {
    CollapseSpacesCollapsed(s);
    NormalizedTrim(CollapseSpaces(s));
  }

  /** In a collapsed string, a leading space stands alone. */
  lemma TrimStartCollapsed(s: string)
    requires Collapsed(s) && s != [] && IsSpace(s[0])
    ensures TrimStart(s) == s[1..]
  {
    assert TrimStart(s) == TrimStart(s[1..]);
    if |s| > 1 {
      assert s[1..][0] == s[1];
      assert !IsSpace(s[1]);
    }
  }

  /** Collapsing a collapsed string keeps its first character, plain
      space or not, and goes on with the rest. */
  lemma CollapsedStep(s: string)
    requires Collapsed(s) && s != []
    ensures CollapseSpaces(s) == [s[0]] + CollapseSpaces(s[1..])
  {
    if IsSpace(s[0]) {
      TrimStartCollapsed(s);
      assert s[0] == ' ';
    }
  }

  /** Collapsing changes nothing in a collapsed string. */
  lemma {:induction false} CollapsedFixed(s: string)
    requires Collapsed(s)
    ensures CollapseSpaces(s) == s
    decreases |s|
  {
    if s != [] {
      CollapsedSlice(s, 1, |s|);
      CollapsedFixed(s[1..]);
      CollapsedStep(s);
      assert s == [s[0]] + s[1..];
    }
  }

  /** A normalized label is its own cleaning. */
  lemma NormalizedFixed(s: string)
    requires Normalized(s)
    ensures CleanKey(s) == s
  {
    assert Collapsed(s);
    CollapsedFixed(s);
    if s != [] {
      assert !IsSpace(s[0]) && !IsSpace(s[|s| - 1]);
    }
  }

  /** Cleaning leaves a label unchanged exactly when it is normalized. */
  lemma CleanKeyFixedIff(s: string)
    ensures CleanKey(s) == s <==> Normalized(s)
  {
    CleanKeyNormalized(s);
    if Normalized(s) { NormalizedFixed(s); }
  }

  /** Cleaning a cleaned label is a no-op. */
  lemma CleanKeyIdempotent(s: string)
    ensures CleanKey(CleanKey(s)) == CleanKey(s)
  {
    CleanKeyNormalized(s);
    NormalizedFixed(CleanKey(s));
  }

  lemma {:induction false} NonSpaceAppend(a: string, b: string)
    ensures NonSpace(a + b) == NonSpace(a) + NonSpace(b)
  {
    if a == [] {
      assert a + b == b;
    } else {
      var ab := a + b;
      assert ab[0] == a[0] && ab[1..] == a[1..] + b;
      NonSpaceAppend(a[1..], b);
      var head := if IsSpace(a[0]) then [] else [a[0]];
      assert NonSpace(ab) == head + NonSpace(a[1..] + b);
      assert NonSpace(a) == head + NonSpace(a[1..]);
    }
  }

  lemma {:induction false} NonSpaceAllSpace(s: string)
    requires forall i :: 0 <= i < |s| ==> IsSpace(s[i])
    ensures NonSpace(s) == []
  {
    if s != [] { NonSpaceAllSpace(s[1..]); }
  }

  lemma {:induction false} NonSpaceCollapse(s: string)
    ensures NonSpace(CollapseSpaces(s)) == NonSpace(s)
    decreases |s|
  {
    if s != [] {
      if IsSpace(s[0]) {
        var rest := TrimStart(s);
        var k := |s| - |rest|;
        assert s == s[..k] + rest;
        NonSpaceAppend(s[..k], rest);
        NonSpaceAllSpace(s[..k]);
        NonSpaceCollapse(rest);
        NonSpaceAppend(" ", CollapseSpaces(rest));
      } else {
        NonSpaceCollapse(s[1..]);
        NonSpaceAppend([s[0]], CollapseSpaces(s[1..]));
      }
    }
  }

  lemma NonSpaceTrimStart(s: string)
    ensures NonSpace(TrimStart(s)) == NonSpace(s)
  {
    var t := TrimStart(s);
    var a := |s| - |t|;
    assert s == s[..a] + t;
    NonSpaceAppend(s[..a], t);
    NonSpaceAllSpace(s[..a]);
  }

  lemma NonSpaceTrimEnd(s: string)
    ensures NonSpace(TrimEnd(s)) == NonSpace(s)
  {
    var r := TrimEnd(s);
    assert s == r + s[|r|..];
    NonSpaceAppend(r, s[|r|..]);
    NonSpaceAllSpace(s[|r|..]);
  }

  /** Cleaning only touches whitespace: the other characters of the label
      are kept, all of them and in order. */
  lemma CleanKeyKeepsText(s: string)
    ensures NonSpace(CleanKey(s)) == NonSpace(s)
  {
    NonSpaceCollapse(s);
    NonSpaceTrimStart(CollapseSpaces(s));
    NonSpaceTrimEnd(TrimStart(CollapseSpaces(s)));
  }

  /** A word without whitespace passes through collapsing unchanged. */
  lemma {:induction false} CollapseWord(w: string, rest: string)
    requires forall i :: 0 <= i < |w| ==> !IsSpace(w[i])
    ensures CollapseSpaces(w + rest) == w + CollapseSpaces(rest)
  {
    if w == [] {
      assert w + rest == rest;
    } else {
      var s := w + rest;
      assert s[0] == w[0] && s[1..] == w[1..] + rest;
      assert !IsSpace(w[0]);
      assert CollapseSpaces(s) == [w[0]] + CollapseSpaces(w[1..] + rest);
      assert forall i :: 0 <= i < |w[1..]| ==> w[1..][i] == w[i + 1];
      CollapseWord(w[1..], rest);
      Regroup([w[0]], w[1..], CollapseSpaces(rest), []);
      assert w == [w[0]] + w[1..];
    }
  }

  /** A run of whitespace becomes a single space. */
  lemma CollapseRun(run: string, rest: string)
    requires run != [] && forall i :: 0 <= i < |run| ==> IsSpace(run[i])
    requires rest == [] || !IsSpace(rest[0])
    ensures CollapseSpaces(run + rest) == " " + CollapseSpaces(rest)
  {
    TrimStartRun(run, rest);
  }

  lemma {:induction false} TrimStartRun(run: string, rest: string)
    requires forall i :: 0 <= i < |run| ==> IsSpace(run[i])
    requires rest == [] || !IsSpace(rest[0])
    ensures TrimStart(run + rest) == rest
  {
    if run == [] {
      assert run + rest == rest;
    } else {
      var s := run + rest;
      assert s[0] == run[0] && IsSpace(s[0]);
      assert s[1..] == run[1..] + rest;
      assert TrimStart(s) == TrimStart(s[1..]);
      TrimStartRun(run[1..], rest);
    }
  }

  predicate AllSpace(s: string) {
    forall i :: 0 <= i < |s| ==> IsSpace(s[i])
  }

  predicate IsWord(s: string) {
    s != [] && forall i :: 0 <= i < |s| ==> !IsSpace(s[i])
  }

  lemma CollapseTrail(trail: string)
    requires AllSpace(trail)
    ensures CollapseSpaces(trail) == if trail == [] then "" else " "
  {
    if trail != [] {
      CollapseRun(trail, "");
      assert trail + "" == trail;
    }
  }

  /** Whitespace, then a word, then whitespace collapse to a space, the
      word, and a space when the trailing whitespace is not empty. */
  lemma CollapseGapWord(gap: string, w2: string, trail: string)
    requires AllSpace(gap) && AllSpace(trail) && gap != []
    requires IsWord(w2)
    ensures CollapseSpaces(gap + (w2 + trail)) == " " + (w2 + (if trail == [] then "" else " "))
  {
    CollapseTrail(trail);
    CollapseWord(w2, trail);
    assert (w2 + trail)[0] == w2[0];
    CollapseRun(gap, w2 + trail);
  }

  lemma CollapseTwoWords(w1: string, gap: string, w2: string, trail: string)
    requires AllSpace(gap) && AllSpace(trail) && gap != []
    requires IsWord(w1) && IsWord(w2)
    ensures CollapseSpaces(w1 + gap + w2 + trail) == w1 + " " + w2 + (if trail == [] then "" else " ")
  {
    CollapseGapWord(gap, w2, trail);
    CollapseWord(w1, gap + (w2 + trail));
    Regroup(w1, gap, w2, trail);
    Regroup(w1, " ", w2, if trail == [] then "" else " ");
  }

  lemma Regroup(a: string, b: string, c: string, d: string)
    ensures a + (b + (c + d)) == a + b + c + d
  {
  }

  lemma TrimTwoWords(w1: string, w2: string, tail: string)
    requires IsWord(w1) && IsWord(w2) && AllSpace(tail)
    ensures TrimEnd(w1 + " " + w2 + tail) == w1 + " " + w2
  {
    var core := w1 + " " + w2;
    assert core + tail == w1 + " " + w2 + tail;
    assert core[|core| - 1] == w2[|w2| - 1];
    TrimEndRun(core, tail);
  }

  lemma {:induction false} TrimEndRun(s: string, run: string)
    requires AllSpace(run)
    requires s == [] || !IsSpace(s[|s| - 1])
    ensures TrimEnd(s + run) == s
    decreases |run|
  {
    if run == [] {
      assert s + run == s;
    } else {
      var shorter := run[..|run| - 1];
      assert (s + run)[..|s + run| - 1] == s + shorter;
      TrimEndRun(s, shorter);
    }
  }

  /** A label made of two words with any whitespace around and between
      them (at least some between) cleans to the two words joined by one
      space; for instance "  Valor   Corrigido\n " gives "Valor Corrigido". */
  lemma CleanKeyTwoWords(lead: string, w1: string, gap: string, w2: string, trail: string)
    requires AllSpace(lead) && AllSpace(gap) && AllSpace(trail) && gap != []
    requires IsWord(w1) && IsWord(w2)
    ensures CleanKey(lead + w1 + gap + w2 + trail) == w1 + " " + w2
  {
    var rest := w1 + gap + w2 + trail;
    var tail := if trail == [] then "" else " ";
    var mid := w1 + " " + w2 + tail;
    CollapseTwoWords(w1, gap, w2, trail);
    assert lead + w1 + gap + w2 + trail == lead + rest;
    if lead != [] {
      CollapseRun(lead, rest);
      TrimStartRun(" ", mid);
    } else {
      assert lead + rest == rest;
      TrimStartRun("", mid);
    }
    TrimTwoWords(w1, w2, tail);
  }
}
