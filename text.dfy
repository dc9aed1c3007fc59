/**
 * The string handling the components share: ECMAScript `trim`, the bulk-input split on
 * `/[\n,]+/`, decimal rendering for `String(n)` and `padStart`, and `parseInt` in base 10.
 */
module Text {
  import opened Wrappers

  // ---------------------------------------------------------------------------------------
  // Whitespace and trim
  // ---------------------------------------------------------------------------------------

  /** The code points ECMAScript counts as WhiteSpace or LineTerminator, i.e. what `trim` strips. */
  predicate IsWhitespace(c: char) {
    || c == '\t' || c == '\n' || c == '\U{000B}' || c == '\U{000C}' || c == '\r' || c == ' '
    || c == '\U{00A0}' || c == '\U{1680}' || ('\U{2000}' <= c <= '\U{200A}')
    || c == '\U{2028}' || c == '\U{2029}' || c == '\U{202F}' || c == '\U{205F}'
    || c == '\U{3000}' || c == '\U{FEFF}'
  }

  predicate AllWhitespace(s: string) {
    forall i :: 0 <= i < |s| ==> IsWhitespace(s[i])
  }

  /** Neither starts nor ends with whitespace. */
  predicate IsTrimmed(s: string) {
    s == [] || (!IsWhitespace(s[0]) && !IsWhitespace(s[|s| - 1]))
  }

  /** The index of the first character at or after `i` that is not whitespace, or `|s|`. */
  function SkipWhitespace(s: string, i: nat): (k: nat)
    requires i <= |s|
    ensures i <= k <= |s|
    ensures forall j :: i <= j < k ==> IsWhitespace(s[j])
    ensures k < |s| ==> !IsWhitespace(s[k])
    decreases |s| - i
  {
    if i < |s| && IsWhitespace(s[i]) then SkipWhitespace(s, i + 1) else i
  }

  /** The end of `s[..e]` once its trailing whitespace is dropped. */
  function BackOverWhitespace(s: string, e: nat): (k: nat)
    requires e <= |s|
    ensures k <= e
    ensures forall j :: k <= j < e ==> IsWhitespace(s[j])
    ensures k > 0 ==> !IsWhitespace(s[k - 1])
  {
    if e > 0 && IsWhitespace(s[e - 1]) then BackOverWhitespace(s, e - 1) else e
  }

  /** Drops the leading whitespace: the result is the suffix of `s` after a whitespace-only prefix. */
  function TrimStart(s: string): (r: string)
    ensures |r| <= |s| && r == s[|s| - |r|..]
    ensures forall j :: 0 <= j < |s| - |r| ==> IsWhitespace(s[j])
    ensures r == [] || !IsWhitespace(r[0])
  {
    s[SkipWhitespace(s, 0)..]
  }

  /** Drops the trailing whitespace: the result is the prefix of `s` before a whitespace-only suffix. */
  function TrimEnd(s: string): (r: string)
    ensures |r| <= |s| && r == s[..|r|]
    ensures forall j :: |r| <= j < |s| ==> IsWhitespace(s[j])
    ensures r == [] || !IsWhitespace(r[|r| - 1])
  {
    s[..BackOverWhitespace(s, |s|)]
  }

  /** `String.prototype.trim`. */
  function Trim(s: string): (r: string)
    ensures IsTrimmed(r)
    ensures r == [] <==> AllWhitespace(s)
  {
    var t := TrimStart(s);
    TrimEnd(t)
  }

  /** Trimming a string that has no surrounding whitespace leaves it unchanged. */
  lemma TrimOfTrimmed(s: string)
    requires IsTrimmed(s)
    ensures Trim(s) == s
  {
    if s != [] {
      assert !IsWhitespace(s[0]);
      assert TrimStart(s) == s;
      assert !IsWhitespace(s[|s| - 1]);
    }
  }

  /** Trimming removes only whitespace, and only at the two ends: `s` is whitespace, the result, whitespace. */
  lemma TrimStripsEnds(s: string)
    ensures exists w1, w2 :: AllWhitespace(w1) && AllWhitespace(w2) && s == w1 + Trim(s) + w2
  {
    var t := TrimStart(s);
    var r := TrimEnd(t);
    var w1, w2 := s[..|s| - |t|], t[|r|..];
    assert t == s[|s| - |t|..] && r == t[..|r|];
    assert s == w1 + t && t == r + w2;
    assert AllWhitespace(w1) && AllWhitespace(w2);
    assert Trim(s) == r;
    assert w1 + (r + w2) == w1 + r + w2;
  }

  /** Every character of the trimmed string is a character of the original. */
  lemma TrimKeepsCharacters(s: string)
    ensures forall i :: 0 <= i < |Trim(s)| ==> Trim(s)[i] in s
  {
    var t := TrimStart(s);
    var r := TrimEnd(t);
    forall i | 0 <= i < |r| ensures r[i] in s {
      assert r[i] == t[i] == s[|s| - |t| + i];
    }
  }

  // ---------------------------------------------------------------------------------------
  // Bulk input: text.split(/[\n,]+/).map(s => s.trim()).filter(s => s)
  // ---------------------------------------------------------------------------------------

  predicate IsSeparator(c: char) {
    c == '\n' || c == ','
  }

  predicate NoSeparator(s: string) {
    forall i :: 0 <= i < |s| ==> !IsSeparator(s[i])
  }

  /**
   * `s.split(/[\n,]+/)`: the pieces between maximal runs of separators. The empty text gives
   * one empty piece, and a run at either end gives an empty first or last piece, as in JavaScript.
   */
  function Split(s: string): (pieces: seq<string>)
    ensures |pieces| >= 1
    ensures forall i :: 0 <= i < |pieces| ==> NoSeparator(pieces[i])
    ensures s != [] && IsSeparator(s[0]) ==> |pieces| >= 2 && pieces[0] == []
    ensures s != [] && !IsSeparator(s[0]) ==> pieces[0] != [] && pieces[0][0] == s[0]
    decreases |s|
  {
    if s == [] then [[]]
    else
      var rest := Split(s[1..]);
      if !IsSeparator(s[0]) then [[s[0]] + rest[0]] + rest[1..]
      else if |s| > 1 && IsSeparator(s[1]) then rest
      else [[]] + rest
  }

  /** `.map(s => s.trim()).filter(s => s)`: trim each piece and drop the ones left empty. */
  function Clean(pieces: seq<string>): (r: seq<string>)
    ensures |r| <= |pieces|
    ensures forall x :: x in r ==> x != [] && IsTrimmed(x)
  {
    if pieces == [] then []
    else
      var t := Trim(pieces[0]);
      if t == [] then Clean(pieces[1..]) else [t] + Clean(pieces[1..])
  }

  /** Trimming never introduces a separator, so separator-free pieces stay separator-free. */
  lemma {:induction false} CleanNoSeparator(pieces: seq<string>)
    requires forall i :: 0 <= i < |pieces| ==> NoSeparator(pieces[i])
    ensures forall x :: x in Clean(pieces) ==> NoSeparator(x)
  {
    if pieces != [] {
      var p := pieces[0];
      assert NoSeparator(p);
      TrimKeepsCharacters(p);
      var t := Trim(p);
      forall i | 0 <= i < |t| ensures !IsSeparator(t[i]) {
        var k :| 0 <= k < |p| && p[k] == t[i];
      }
      CleanNoSeparator(pieces[1..]);
    }
  }

  /** A non-empty, trimmed item without separators: the shape of every item the bulk parser yields. */
  predicate IsCleanItem(s: string) {
    s != [] && NoSeparator(s) && IsTrimmed(s)
  }

  /** The bulk-text parser shared by the wheel's item editor and the group generator's name list. */
  function ParseBulk(text: string): (items: seq<string>)
    ensures forall x :: x in items ==> IsCleanItem(x)
  {
    CleanNoSeparator(Split(text));
    Clean(Split(text))
  }

  /** The items written back as text, one separator between neighbours. */
  function Join(xs: seq<string>, sep: char): string {
    if xs == [] then []
    else if |xs| == 1 then xs[0]
    else xs[0] + [sep] + Join(xs[1..], sep)
  }

  /** A separator-free prefix joins onto the first piece of what follows it. */
  lemma {:induction false} SplitPrefix(a: string, t: string)
    requires NoSeparator(a)
    ensures Split(a + t) == [a + Split(t)[0]] + Split(t)[1..]
    decreases |a|
  {
    if a == [] {
      assert a + t == t;
      assert a + Split(t)[0] == Split(t)[0];
      assert [Split(t)[0]] + Split(t)[1..] == Split(t);
    } else {
      assert (a + t)[1..] == a[1..] + t;
      SplitPrefix(a[1..], t);
      assert [a[0]] + (a[1..] + Split(t)[0]) == a + Split(t)[0];
    }
  }

  /** A non-empty run of separators: the text one match of `/[\n,]+/` consumes. */
  predicate IsSeparatorRun(r: string) {
    r != [] && forall i :: 0 <= i < |r| ==> IsSeparator(r[i])
  }

  /** `ps[0] + rs[0] + ps[1] + rs[1] + ... + ps[|ps| - 1]`: pieces with a run between neighbours. */
  function Interleave(ps: seq<string>, rs: seq<string>): string
    requires |ps| >= 1 && |rs| == |ps| - 1
  {
    if |ps| == 1 then ps[0] else ps[0] + rs[0] + Interleave(ps[1..], rs[1..])
  }

  /**
   * What the split can return: at least one piece, none holding a separator, and none empty
   * except possibly the first and the last (a run at the start or at the end of the text).
   */
  predicate SplitPieces(ps: seq<string>) {
    && |ps| >= 1
    && (forall i :: 0 <= i < |ps| ==> NoSeparator(ps[i]))
    && (forall i :: 0 < i < |ps| - 1 ==> ps[i] != [])
  }

  /** A whole run of separators, then text that does not start with one, opens an empty piece. */
  lemma {:induction false} SplitRun(r: string, t: string)
    requires IsSeparatorRun(r) && (t == [] || !IsSeparator(t[0]))
    ensures Split(r + t) == [[]] + Split(t)
    decreases |r|
  {
    var u := r + t;
    assert u[1..] == r[1..] + t;
    if |r| == 1 {
      assert u[1..] == t;
    } else {
      assert IsSeparator(u[1]);
      SplitRun(r[1..], t);
    }
  }

  /** An interleaving starts with its first piece. */
  lemma InterleaveStart(ps: seq<string>, rs: seq<string>)
    requires |ps| >= 1 && |rs| == |ps| - 1
    ensures |Interleave(ps, rs)| >= |ps[0]| && Interleave(ps, rs)[..|ps[0]|] == ps[0]
  {
    if |ps| > 1 {
      var t := rs[0] + Interleave(ps[1..], rs[1..]);
      assert Interleave(ps, rs) == ps[0] + t;
    }
  }

  /**
   * The split inverts any interleaving: separator-free pieces, only the first and last possibly
   * empty, with any non-empty separator runs between them, split back into exactly those pieces.
   */
  lemma {:induction false} SplitInterleave(ps: seq<string>, rs: seq<string>)
    requires SplitPieces(ps) && |rs| == |ps| - 1
    requires forall i :: 0 <= i < |rs| ==> IsSeparatorRun(rs[i])
    ensures Split(Interleave(ps, rs)) == ps
    decreases |ps|
  {
    if |ps| == 1 {
      SplitPrefix(ps[0], []);
      assert ps[0] + [] == ps[0];
    } else {
      var ps', rs' := ps[1..], rs[1..];
      assert SplitPieces(ps') by {
        forall i | 0 < i < |ps'| - 1 ensures ps'[i] != [] {
          assert ps'[i] == ps[i + 1];
        }
      }
      var tail := Interleave(ps', rs');
      SplitInterleave(ps', rs');
      InterleaveStart(ps', rs');
      if ps'[0] != [] {
        assert tail[0] == ps'[0][0];
      } else {
        assert |ps'| == 1 && tail == [];
      }
      SplitRun(rs[0], tail);
      var u := rs[0] + tail;
      assert Interleave(ps, rs) == ps[0] + u;
      SplitPrefix(ps[0], u);
      assert ps[0] + [] == ps[0];
      assert [ps[0]] + ps' == ps;
    }
  }

  /**
   * Every text is its split pieces with non-empty separator runs between them; with
   * `SplitInterleave`, the split is the one such decomposition of the text.
   */
  lemma {:induction false} SplitDecomposes(s: string) returns (rs: seq<string>)
    ensures SplitPieces(Split(s)) && |rs| == |Split(s)| - 1
    ensures forall i :: 0 <= i < |rs| ==> IsSeparatorRun(rs[i])
    ensures Interleave(Split(s), rs) == s
    decreases |s|
  {
    if s == [] {
      rs := [];
    } else {
      var t := s[1..];
      var rest := Split(t);
      var rs' := SplitDecomposes(t);
      var c := s[0];
      assert s == [c] + t;
      if !IsSeparator(c) {
        rs := rs';
        assert Split(s) == [[c] + rest[0]] + rest[1..];
        DecomposeAfterChar(c, rest, rs');
      } else if |s| > 1 && IsSeparator(s[1]) {
        rs := [[c] + rs'[0]] + rs'[1..];
        assert Split(s) == rest;
        DecomposeLongerRun(c, rest, rs');
      } else {
        rs := [[c]] + rs';
        assert Split(s) == [[]] + rest;
        DecomposeNewRun(c, rest, rs');
      }
    }
  }

  /** A non-separator before the text joins its first piece. */
  lemma DecomposeAfterChar(c: char, ps: seq<string>, rs: seq<string>)
    requires !IsSeparator(c) && SplitPieces(ps) && |rs| == |ps| - 1
    ensures SplitPieces([[c] + ps[0]] + ps[1..])
    ensures Interleave([[c] + ps[0]] + ps[1..], rs) == [c] + Interleave(ps, rs)
  {
    var qs := [[c] + ps[0]] + ps[1..];
    assert NoSeparator(qs[0]) by {
      assert forall j :: 1 <= j < |qs[0]| ==> qs[0][j] == ps[0][j - 1];
    }
    assert forall i :: 1 <= i < |qs| ==> qs[i] == ps[i];
    InterleavePrepend([c], ps, rs);
  }

  /** A separator before a text that opens with a run lengthens that run. */
  lemma DecomposeLongerRun(c: char, ps: seq<string>, rs: seq<string>)
    requires IsSeparator(c) && |ps| >= 2 && ps[0] == [] && |rs| == |ps| - 1
    requires forall i :: 0 <= i < |rs| ==> IsSeparatorRun(rs[i])
    ensures var rs1 := [[c] + rs[0]] + rs[1..];
      && (forall i :: 0 <= i < |rs1| ==> IsSeparatorRun(rs1[i]))
      && Interleave(ps, rs1) == [c] + Interleave(ps, rs)
  {
    var rs1 := [[c] + rs[0]] + rs[1..];
    assert IsSeparatorRun(rs1[0]) by {
      assert forall j :: 1 <= j < |rs1[0]| ==> rs1[0][j] == rs[0][j - 1];
    }
    assert forall i :: 1 <= i < |rs1| ==> rs1[i] == rs[i];
    LongerFirstRun(c, ps, rs);
  }

  lemma LongerFirstRun(c: char, ps: seq<string>, rs: seq<string>)
    requires |ps| >= 2 && ps[0] == [] && |rs| == |ps| - 1
    ensures Interleave(ps, [[c] + rs[0]] + rs[1..]) == [c] + Interleave(ps, rs)
  {
    var rs1 := [[c] + rs[0]] + rs[1..];
    assert rs1[1..] == rs[1..];
    var tail := Interleave(ps[1..], rs[1..]);
    assert Interleave(ps, rs1) == ps[0] + rs1[0] + tail;
    assert ps[0] + rs1[0] == [c] + rs[0];
    assert Interleave(ps, rs) == ps[0] + rs[0] + tail;
    assert ps[0] + rs[0] == rs[0];
    assert ([c] + rs[0]) + tail == [c] + (rs[0] + tail);
  }

  /** A lone separator before a text that does not open with one starts a new, empty first piece. */
  lemma DecomposeNewRun(c: char, ps: seq<string>, rs: seq<string>)
    requires IsSeparator(c) && SplitPieces(ps) && |rs| == |ps| - 1
    requires forall i :: 0 <= i < |rs| ==> IsSeparatorRun(rs[i])
    requires |ps| >= 2 ==> ps[0] != []
    ensures SplitPieces([[]] + ps)
    ensures forall i :: 0 <= i < |rs| + 1 ==> IsSeparatorRun(([[c]] + rs)[i])
    ensures Interleave([[]] + ps, [[c]] + rs) == [c] + Interleave(ps, rs)
  {
    var qs, rs1 := [[]] + ps, [[c]] + rs;
    assert forall i :: 1 <= i < |qs| ==> qs[i] == ps[i - 1];
    assert forall i :: 1 <= i < |rs1| ==> rs1[i] == rs[i - 1];
    assert qs[1..] == ps && rs1[1..] == rs;
  }

  /** Text put in front of the first piece comes first in the interleaving. */
  lemma InterleavePrepend(a: string, ps: seq<string>, rs: seq<string>)
    requires |ps| >= 1 && |rs| == |ps| - 1
    ensures Interleave([a + ps[0]] + ps[1..], rs) == a + Interleave(ps, rs)
  {
    var qs := [a + ps[0]] + ps[1..];
    if |ps| > 1 {
      assert qs[1..] == ps[1..];
    }
  }

  /** Joining puts a one-character run between neighbours. */
  lemma {:induction false} JoinIsInterleave(xs: seq<string>, sep: char)
    requires |xs| >= 1
    ensures Join(xs, sep) == Interleave(xs, seq(|xs| - 1, _ => [sep]))
  {
    if |xs| > 1 {
      var rs := seq(|xs| - 1, _ => [sep]);
      JoinIsInterleave(xs[1..], sep);
      assert rs[1..] == seq(|xs| - 2, _ => [sep]);
    }
  }

  /** The split inverts a one-separator join of non-empty, separator-free items. */
  lemma SplitJoin(xs: seq<string>, sep: char)
    requires IsSeparator(sep) && |xs| >= 1
    requires forall i :: 0 <= i < |xs| ==> xs[i] != [] && NoSeparator(xs[i])
    ensures Split(Join(xs, sep)) == xs
  {
    JoinIsInterleave(xs, sep);
    SplitInterleave(xs, seq(|xs| - 1, _ => [sep]));
  }

  /** Bulk text of any shape parses to the pieces between its runs, trimmed, blanks dropped. */
  lemma ParseBulkInterleave(ps: seq<string>, rs: seq<string>)
    requires SplitPieces(ps) && |rs| == |ps| - 1
    requires forall i :: 0 <= i < |rs| ==> IsSeparatorRun(rs[i])
    ensures ParseBulk(Interleave(ps, rs)) == Clean(ps)
  {
    SplitInterleave(ps, rs);
  }

  /** The trim of every piece, in order. */
  function TrimAll(pieces: seq<string>): (ts: seq<string>)
    ensures |ts| == |pieces| && forall i :: 0 <= i < |pieces| ==> ts[i] == Trim(pieces[i])
  {
    if pieces == [] then []
    else
      var rest := TrimAll(pieces[1..]);
      assert forall i :: 1 <= i < |pieces| ==> rest[i - 1] == Trim(pieces[i]) by {
        forall i | 1 <= i < |pieces| ensures rest[i - 1] == Trim(pieces[i]) {
          assert pieces[1..][i - 1] == pieces[i];
        }
      }
      [Trim(pieces[0])] + rest
  }

  /**
   * `r` is the subsequence of the non-empty strings of `ts`: `f` lists, in increasing order,
   * exactly the indices of those strings, and `r` holds them in that order.
   */
  predicate SelectsNonEmpty(ts: seq<string>, f: seq<nat>, r: seq<string>) {
    && |f| == |r|
    && (forall k :: 0 <= k < |f| ==> f[k] < |ts| && r[k] == ts[f[k]])
    && (forall k, l :: 0 <= k < l < |f| ==> f[k] < f[l])
    && (forall i :: 0 <= i < |ts| && ts[i] != [] ==> i in f)
  }

  /** `Clean` is the in-order subsequence of the non-empty trims of the pieces. */
  lemma {:induction false} CleanKeepsNonEmptyTrims(pieces: seq<string>)
    ensures exists f :: SelectsNonEmpty(TrimAll(pieces), f, Clean(pieces))
  {
    if pieces == [] {
      var f: seq<nat> := [];
      assert Clean(pieces) == [];
      assert SelectsNonEmpty(TrimAll(pieces), f, Clean(pieces));
    } else {
      var tail := pieces[1..];
      CleanKeepsNonEmptyTrims(tail);
      var f' :| SelectsNonEmpty(TrimAll(tail), f', Clean(tail));
      var t := Trim(pieces[0]);
      assert TrimAll(pieces) == [t] + TrimAll(tail);
      var f := SelectsStep(t, TrimAll(tail), f', Clean(tail));
      assert Clean(pieces) == if t == [] then Clean(tail) else [t] + Clean(tail);
      assert SelectsNonEmpty(TrimAll(pieces), f, Clean(pieces));
    }
  }

  /** One more string in front: shift the selected indices by one, and select index 0 if it is non-empty. */
  lemma SelectsStep(t: string, ts: seq<string>, f': seq<nat>, r': seq<string>) returns (f: seq<nat>)
    requires SelectsNonEmpty(ts, f', r')
    ensures SelectsNonEmpty([t] + ts, f, if t == [] then r' else [t] + r')
  {
    var g := ShiftSelection(t, ts, f', r');
    if t == [] {
      f := g;
      SkipFirst(t, ts, g, r');
    } else {
      f := [0] + g;
      KeepFirst(t, ts, g, r');
    }
  }

  /** `g` selects the non-empty strings of `ts` from among those of `[t] + ts` after the first. */
  predicate SelectsAfterFirst(t: string, ts: seq<string>, g: seq<nat>, r: seq<string>) {
    && |g| == |r|
    && (forall k :: 0 <= k < |g| ==> 0 < g[k] <= |ts| && r[k] == ([t] + ts)[g[k]])
    && (forall k, l :: 0 <= k < l < |g| ==> g[k] < g[l])
    && (forall i :: 0 < i <= |ts| && ([t] + ts)[i] != [] ==> i in g)
  }

  /** The selected indices, each moved up by one past a new first string. */
  lemma ShiftSelection(t: string, ts: seq<string>, f': seq<nat>, r': seq<string>) returns (g: seq<nat>)
    requires SelectsNonEmpty(ts, f', r')
    ensures SelectsAfterFirst(t, ts, g, r')
  {
    var ts1 := [t] + ts;
    g := seq(|f'|, k requires 0 <= k < |f'| => f'[k] + 1);
    forall k | 0 <= k < |g| ensures 0 < g[k] <= |ts| && r'[k] == ts1[g[k]] {
      assert ts1[g[k]] == ts[f'[k]];
    }
    forall i | 0 < i <= |ts| && ts1[i] != [] ensures i in g {
      assert ts[i - 1] == ts1[i];
      var k :| 0 <= k < |f'| && f'[k] == i - 1;
      assert g[k] == i;
    }
  }

  /** An empty first string is skipped. */
  lemma SkipFirst(t: string, ts: seq<string>, g: seq<nat>, r: seq<string>)
    requires t == [] && SelectsAfterFirst(t, ts, g, r)
    ensures SelectsNonEmpty([t] + ts, g, r)
  {
  }

  /** A non-empty first string is selected ahead of the rest. */
  lemma KeepFirst(t: string, ts: seq<string>, g: seq<nat>, r: seq<string>)
    requires t != [] && SelectsAfterFirst(t, ts, g, r)
    ensures SelectsNonEmpty([t] + ts, [0] + g, [t] + r)
  {
    var ts1, f, r1 := [t] + ts, [0] + g, [t] + r;
    forall k | 0 <= k < |f| ensures f[k] < |ts1| && r1[k] == ts1[f[k]] {
      if k > 0 {
        assert f[k] == g[k - 1] && r1[k] == r[k - 1];
      }
    }
    forall k, l | 0 <= k < l < |f| ensures f[k] < f[l] {
      assert f[l] == g[l - 1];
      if k > 0 {
        assert f[k] == g[k - 1];
      }
    }
    forall i | 0 <= i < |ts1| && ts1[i] != [] ensures i in f {
      if i > 0 {
        var j :| 0 <= j < |g| && g[j] == i;
        assert f[j + 1] == i;
      } else {
        assert f[0] == 0;
      }
    }
  }

  lemma {:induction false} CleanOfCleanItems(xs: seq<string>)
    requires forall i :: 0 <= i < |xs| ==> IsCleanItem(xs[i])
    ensures Clean(xs) == xs
  {
    if xs != [] {
      TrimOfTrimmed(xs[0]);
      CleanOfCleanItems(xs[1..]);
      assert [xs[0]] + xs[1..] == xs;
    }
  }

  /**
   * Round trip: joining clean items with either separator and parsing the text gives back
   * exactly those items, in order (for no items, the empty text parses to nothing).
   */
  lemma ParseBulkJoin(xs: seq<string>, sep: char)
    requires IsSeparator(sep)
    requires forall i :: 0 <= i < |xs| ==> IsCleanItem(xs[i])
    ensures ParseBulk(Join(xs, sep)) == xs
  {
    if xs == [] {
      assert Split([]) == [[]];
      assert Trim([]) == [];
    } else {
      SplitJoin(xs, sep);
      CleanOfCleanItems(xs);
    }
  }

  // ---------------------------------------------------------------------------------------
  // Decimal numbers: String(n), padStart, parseInt
  // ---------------------------------------------------------------------------------------

  predicate IsDigit(c: char) {
    '0' <= c <= '9'
  }

  predicate AllDigits(s: string) {
    forall i :: 0 <= i < |s| ==> IsDigit(s[i])
  }

  function DigitChar(d: nat): (c: char)
    requires d < 10
    ensures IsDigit(c) && c as int - '0' as int == d
  {
    "0123456789"[d]
  }

  function DigitValue(c: char): nat
    requires IsDigit(c)
  {
    c as int - '0' as int
  }

  /** `String(n)` for a non-negative integer: its decimal digits without leading zeros. */
  function NatToString(n: nat): (s: string)
    ensures |s| >= 1 && AllDigits(s)
    ensures n < 10 <==> |s| == 1
    ensures n < 100 ==> |s| <= 2
    ensures s[0] == '0' ==> n == 0
  {
    if n < 10 then [DigitChar(n)] else NatToString(n / 10) + [DigitChar(n % 10)]
  }

  /** The value of a string of decimal digits (leading zeros allowed). */
  function DigitsValue(s: string): nat
    requires AllDigits(s)
  {
    if s == [] then 0 else DigitsValue(s[..|s| - 1]) * 10 + DigitValue(s[|s| - 1])
  }

  lemma {:induction false} NatToStringRoundTrip(n: nat)
    ensures DigitsValue(NatToString(n)) == n
  {
    var s := NatToString(n);
    if n < 10 {
      assert s[..0] == [];
    } else {
      assert s[..|s| - 1] == NatToString(n / 10);
      NatToStringRoundTrip(n / 10);
    }
  }

  /** `String(i)` for any integer: a minus sign before the digits of a negative value. */
  function IntToString(i: int): (r: string)
    ensures |r| >= 1 && (r[0] == '-' <==> i < 0)
  {
    if i < 0 then "-" + NatToString(-i) else NatToString(i)
  }

  /** `parseInt(String(i))` is `i` for every integer. */
  lemma IntToStringRoundTrip(i: int)
    ensures ParseInt(IntToString(i)) == Some(i)
  {
    ParseIntOfString(if i < 0 then -i else i);
  }

  /** `parseInt` reads `String(n)` and `String(-n)` back. */
  lemma ParseIntOfString(n: nat)
    ensures ParseInt(NatToString(n)) == Some(n)
    ensures ParseInt("-" + NatToString(n)) == Some(-(n as int))
  {
    var d := NatToString(n);
    assert d + [] == d;
    ParseIntOfNat(n, []);
    ParseIntOfNegatedNat(n, []);
  }

  /** `s.padStart(width, fill)`: `fill` repeated in front of `s` up to `width` characters. */
  function PadStart(s: string, width: nat, fill: char): (r: string)
    ensures |r| == if |s| >= width then |s| else width
    ensures r[|r| - |s|..] == s
    ensures forall i :: 0 <= i < |r| - |s| ==> r[i] == fill
  {
    if |s| >= width then s else seq(width - |s|, _ => fill) + s
  }

  /** The longest run of decimal digits at the start of `s`. */
  function LeadingDigits(s: string): (d: string)
    ensures |d| <= |s| && d == s[..|d|] && AllDigits(d)
    ensures |d| == |s| || !IsDigit(s[|d|])
  {
    if s != [] && IsDigit(s[0]) then [s[0]] + LeadingDigits(s[1..]) else []
  }

  /**
   * `parseInt(s)` in base 10: skip leading whitespace, read an optional sign and then the
   * longest run of digits; `None` stands for NaN, the result when there are no digits.
   */
  function ParseInt(s: string): (r: Option<int>)
    ensures r.None? <==> LeadingDigits(Unsigned(TrimStart(s))) == []
    ensures r.Some? ==> r.value == SignOf(TrimStart(s)) * DigitsValue(LeadingDigits(Unsigned(TrimStart(s))))
  {
    ParseSigned(TrimStart(s))
  }

  /** The text after one leading `-` or `+`, if there is one. */
  function Unsigned(t: string): string {
    if t != [] && (t[0] == '-' || t[0] == '+') then t[1..] else t
  }

  /** -1 after a leading `-`, otherwise 1. */
  function SignOf(t: string): int {
    if t != [] && t[0] == '-' then -1 else 1
  }

  /** An optional `-` or `+`, then the digits. */
  function ParseSigned(t: string): Option<int> {
    if t != [] && t[0] == '-' then
      match ParseDigits(t[1..])
      case None => None
      case Some(v) => Some(-v)
    else if t != [] && t[0] == '+' then ParseDigits(t[1..])
    else ParseDigits(t)
  }

  /** The value of the leading digits, or `None` when there are none. */
  function ParseDigits(b: string): Option<int> {
    var d := LeadingDigits(b);
    if d == [] then None else Some(DigitsValue(d))
  }

  lemma {:induction false} LeadingDigitsOfNumber(d: string, rest: string)
    requires AllDigits(d)
    requires rest == [] || !IsDigit(rest[0])
    ensures LeadingDigits(d + rest) == d
    decreases |d|
  {
    if d == [] {
      assert d + rest == rest;
    } else {
      assert (d + rest)[1..] == d[1..] + rest;
      LeadingDigitsOfNumber(d[1..], rest);
    }
  }

  /** A string that starts with a digit is read as its leading digits, with no sign. */
  lemma {:induction false} ParseIntOfDigits(s: string)
    requires s != [] && IsDigit(s[0])
    ensures ParseInt(s) == Some(DigitsValue(LeadingDigits(s)))
  {
    assert !IsWhitespace(s[0]);
    assert TrimStart(s) == s;
    assert ParseSigned(s) == ParseDigits(s);
  }

  /** After a minus sign, a string that starts with a digit is read as minus its leading digits. */
  lemma {:induction false} ParseIntOfMinus(s: string)
    requires s != [] && IsDigit(s[0])
    ensures ParseInt("-" + s) == Some(-(DigitsValue(LeadingDigits(s)) as int))
  {
    var m := "-" + s;
    assert m[0] == '-' && !IsWhitespace(m[0]);
    assert TrimStart(m) == m;
    assert m[1..] == s;
    assert LeadingDigits(s) != [];
  }

  /** The decimal digits of `n`, followed by anything that does not start with a digit. */
  lemma {:induction false} LeadingDigitsOfNatString(n: nat, rest: string)
    requires rest == [] || !IsDigit(rest[0])
    ensures IsDigit((NatToString(n) + rest)[0])
    ensures DigitsValue(LeadingDigits(NatToString(n) + rest)) == n
  {
    var d := NatToString(n);
    NatToStringRoundTrip(n);
    LeadingDigitsOfNumber(d, rest);
    assert (d + rest)[0] == d[0];
  }

  /**
   * `parseInt` reads back what `String` wrote, also when the digits are followed by a
   * non-digit (as in "2.5" or "3e1").
   */
  lemma ParseIntOfNat(n: nat, rest: string)
    requires rest == [] || !IsDigit(rest[0])
    ensures ParseInt(NatToString(n) + rest) == Some(n)
  {
    LeadingDigitsOfNatString(n, rest);
    ParseIntOfDigits(NatToString(n) + rest);
  }

  /** The same with a minus sign in front: the value read is negated. */
  lemma ParseIntOfNegatedNat(n: nat, rest: string)
    requires rest == [] || !IsDigit(rest[0])
    ensures ParseInt("-" + (NatToString(n) + rest)) == Some(-(n as int))
  {
    LeadingDigitsOfNatString(n, rest);
    ParseIntOfMinus(NatToString(n) + rest);
  }
}
