/**
 * `parsePhxKey(key)` of assets/js/phoenix_live_view/utils.js: the path segments of
 * a form-field key, `key.match(/[^.\]]+(?=[^\]]*$)/g) || []`, with `[]` for a
 * falsy key.
 *
 * `Matches` scans as the regular-expression engine does: at each position the
 * greedy run `[^.\]]+` is tried from its longest length down, each length
 * checked by the look-ahead `(?=[^\]]*$)` (nothing after it is a ']'); a match
 * moves the scan past it, a failure moves it one character on. The lemmas show
 * that this yields the non-empty '.'-separated pieces of the text after the
 * last ']'.
 */
module PhxKey {

  import opened Wrappers
  import opened JsArray

  /** The class `[^.\]]`. */
  predicate IsSegmentChar(c: char) { c != '.' && c != ']' }

  /** The look-ahead `(?=[^\]]*$)` at position `p`: no ']' from `p` to the end. */
  predicate NoBracketFrom(s: string, p: nat)
  {
    forall i :: p <= i < |s| ==> s[i] != ']'
  }

  /** The end of the longest run of segment characters that starts at `p`. */
  function RunEnd(s: string, p: nat): (e: nat)
    requires p <= |s|
    ensures p <= e <= |s|
    ensures forall i :: p <= i < e ==> IsSegmentChar(s[i])
    ensures e == |s| || !IsSegmentChar(s[e])
    decreases |s| - p
  {
    if p == |s| || !IsSegmentChar(s[p]) then p else RunEnd(s, p + 1)
  }

  /**
   * The greedy quantifier backtracking from `k` characters at `p`: the first
   * length whose remainder passes the look-ahead, or 0 when none does.
   */
  function MatchLength(s: string, p: nat, k: nat): (n: nat)
    requires p + k <= |s|
    ensures n <= k
    ensures n > 0 ==> NoBracketFrom(s, p + n)
    decreases k
  {
    if k == 0 then 0
    else if NoBracketFrom(s, p + k) then k
    else MatchLength(s, p, k - 1)
  }

  /** The matches of the global scan that starts at position `p`. */
  function Matches(s: string, p: nat): seq<string>
    requires p <= |s|
    decreases |s| - p
  {
    if p == |s| then []
    else
      var n := MatchLength(s, p, RunEnd(s, p) - p);
      if n == 0 then Matches(s, p + 1) else [s[p..p + n]] + Matches(s, p + n)
  }

  /** Every match is a non-empty run of segment characters. */
  lemma {:induction false} MatchesAreSegments(s: string, p: nat)
    requires p <= |s|
    ensures forall t :: t in Matches(s, p) ==> |t| > 0 && '.' !in t && ']' !in t
    decreases |s| - p
  {
    if p < |s| {
      var n := MatchLength(s, p, RunEnd(s, p) - p);
      if n == 0 {
        MatchesAreSegments(s, p + 1);
      } else {
        MatchesAreSegments(s, p + n);
        var t := s[p..p + n];
        assert forall i :: 0 <= i < |t| ==> t[i] == s[p + i] && IsSegmentChar(s[p + i]);
      }
    }
  }

  /** `parsePhxKey(key)`: undefined, null or "" give no segments. */
  function ParsePhxKey(key: Option<string>): (r: seq<string>)
    ensures key == None || key == Some("") ==> r == []
    ensures forall t :: t in r ==> |t| > 0 && '.' !in t && ']' !in t
  {
    match key
    case None => []
    case Some(s) => if s == "" then [] else MatchesAreSegments(s, 0); Matches(s, 0)
  }

  // ---- The reference reading ----------------------------------------------

  /** The text after the last ']', or all of `s` when it has none. */
  function AfterLastBracket(s: string): (r: string)
    ensures |r| <= |s| && s[|s| - |r|..] == r
    ensures ']' !in r
    ensures |r| < |s| ==> s[|s| - |r| - 1] == ']'
  {
    if |s| == 0 then ""
    else if s[|s| - 1] == ']' then ""
    else
      var r := AfterLastBracket(s[..|s| - 1]) + [s[|s| - 1]];
      assert s[..|s| - 1][|s| - |r|..] + [s[|s| - 1]] == s[|s| - |r|..];
      r
  }

  /** `t.split(".")`: the pieces between the dots, empty ones included. */
  function Split(t: string): (pieces: seq<string>)
    ensures |pieces| > 0
  {
    if |t| == 0 then [""]
    else
      var rest := Split(t[1..]);
      if t[0] == '.' then [""] + rest else [[t[0]] + rest[0]] + rest[1..]
  }

  predicate IsNonEmpty(t: string) { t != "" }

  /** The pieces of `t.split(".")` that are not empty. */
  function NonEmptyPieces(t: string): seq<string>
  {
    Filter(IsNonEmpty, Split(t))
  }

  /** A dot-free prefix joins the first piece of what follows it. */
  lemma {:induction false} SplitAfterRun(r: string, u: string)
    requires '.' !in r
    ensures Split(r + u) == [r + Split(u)[0]] + Split(u)[1..]
  {
    if |r| > 0 {
      assert (r + u)[0] == r[0] && (r + u)[1..] == r[1..] + u;
      assert r == [r[0]] + r[1..];
      assert '.' !in r[1..];
      SplitAfterRun(r[1..], u);
      var rest := Split(r[1..] + u);
      assert rest[0] == r[1..] + Split(u)[0];
      assert rest[1..] == Split(u)[1..];
      assert [r[0]] + rest[0] == r + Split(u)[0];
    } else {
      assert r + u == u && r + Split(u)[0] == Split(u)[0];
      assert Split(u) == [Split(u)[0]] + Split(u)[1..];
    }
  }

  /** Filtering distributes over a leading element. */
  lemma FilterCons(x: string, rest: seq<string>)
    ensures Filter(IsNonEmpty, [x] + rest) == (if x != "" then [x] else []) + Filter(IsNonEmpty, rest)
  {
    assert ([x] + rest)[0] == x && ([x] + rest)[1..] == rest;
  }

  /** A leading dot contributes only an empty piece. */
  lemma PiecesAfterDot(u: string)
    requires |u| > 0 && u[0] == '.'
    ensures NonEmptyPieces(u) == NonEmptyPieces(u[1..])
  {
    FilterCons("", Split(u[1..]));
  }

  /** A non-empty dot-free run before the end or a dot is one piece of its own. */
  lemma PiecesAfterRun(run: string, rest: string)
    requires |run| > 0 && '.' !in run
    requires rest == "" || rest[0] == '.'
    ensures NonEmptyPieces(run + rest) == [run] + NonEmptyPieces(rest)
  {
    SplitAfterRun(run, rest);
    var pieces := Split(rest);
    assert pieces[0] == "";
    assert run + pieces[0] == run;
    assert pieces == [""] + pieces[1..];
    FilterCons(run, pieces[1..]);
    FilterCons("", pieces[1..]);
  }

  /** A dot is skipped by the scan. */
  lemma MatchesSkipDot(s: string, p: nat)
    requires p < |s| && s[p] == '.'
    ensures Matches(s, p) == Matches(s, p + 1)
  {
    assert RunEnd(s, p) == p;
  }

  /** The greedy quantifier keeps all `k` characters when nothing after them is a ']'. */
  lemma MatchLengthWhole(s: string, p: nat, k: nat)
    requires 0 < k && p + k <= |s| && NoBracketFrom(s, p + k)
    ensures MatchLength(s, p, k) == k
  {
  }

  /** A scan step that matches `n` characters moves on by `n`. */
  lemma MatchesStep(s: string, p: nat, n: nat)
    requires p < |s| && 0 < n && n == MatchLength(s, p, RunEnd(s, p) - p)
    ensures Matches(s, p) == [s[p..p + n]] + Matches(s, p + n)
  {
  }

  /** With no ']' ahead, the look-ahead passes and the whole run is a match. */
  lemma MatchesTakeRun(s: string, p: nat)
    requires p < |s| && NoBracketFrom(s, p) && IsSegmentChar(s[p])
    ensures RunEnd(s, p) > p
    ensures Matches(s, p) == [s[p..RunEnd(s, p)]] + Matches(s, RunEnd(s, p))
  {
    var e := RunEnd(s, p);
    MatchLengthWhole(s, p, e - p);
    var n := e - p;
    MatchesStep(s, p, n);
    assert p + n == e;
    assert s[p..p + n] == s[p..e];
  }

  /** Inside a text without ']', the scan finds exactly the non-empty pieces. */
  lemma {:induction false} MatchesWithoutBracket(s: string, p: nat)
    requires p <= |s| && NoBracketFrom(s, p)
    ensures Matches(s, p) == NonEmptyPieces(s[p..])
    decreases |s| - p
  {
    if p == |s| {
      assert Split(s[p..]) == [""];
    } else {
      assert s[p..][0] == s[p];
      if s[p] == '.' {
        MatchesSkipDot(s, p);
        MatchesWithoutBracket(s, p + 1);
        assert s[p..][1..] == s[p + 1..];
        PiecesAfterDot(s[p..]);
      } else {
        MatchesTakeRun(s, p);
        var e := RunEnd(s, p);
        MatchesWithoutBracket(s, e);
        var run := s[p..e];
        assert s[p..] == run + s[e..];
        assert '.' !in run by {
          assert forall i :: 0 <= i < |run| ==> run[i] == s[p + i];
        }
        PiecesAfterRun(run, s[e..]);
      }
    }
  }

  /** No run before a ']' at `j` passes the look-ahead. */
  lemma {:induction false} NoMatchBeforeBracket(s: string, p: nat, k: nat, j: nat)
    requires p + k <= j < |s| && s[j] == ']'
    ensures MatchLength(s, p, k) == 0
    decreases k
  {
    assert !NoBracketFrom(s, p + k);
    if k > 0 {
      NoMatchBeforeBracket(s, p, k - 1, j);
    }
  }

  /** A position before a ']' yields no match: the scan moves one character on. */
  lemma NoMatchAt(s: string, p: nat, j: nat)
    requires p <= j < |s| && s[j] == ']'
    ensures Matches(s, p) == Matches(s, p + 1)
  {
    var e := RunEnd(s, p);
    assert e <= j;
    NoMatchBeforeBracket(s, p, e - p, j);
  }

  /** Up to the last ']' at `b - 1`, the scan finds nothing. */
  lemma {:induction false} NothingBeforeLastBracket(s: string, p: nat, b: nat)
    requires 0 < b <= |s| && s[b - 1] == ']' && p <= b
    ensures Matches(s, p) == Matches(s, b)
    decreases b - p
  {
    if p < b {
      NoMatchAt(s, p, b - 1);
      NothingBeforeLastBracket(s, p + 1, b);
    }
  }

  /**
   * parsePhxKey returns the non-empty '.'-separated pieces of the text after
   * the last ']' of the key (of the whole key when it has no ']').
   */
  lemma ParsePhxKeyIsPiecesAfterLastBracket(s: string)
    ensures ParsePhxKey(Some(s)) == NonEmptyPieces(AfterLastBracket(s))
  {
    var tail := AfterLastBracket(s);
    var b := |s| - |tail|;
    assert NoBracketFrom(s, b) by {
      assert forall i :: b <= i < |s| ==> s[i] == tail[i - b];
    }
    if b > 0 {
      NothingBeforeLastBracket(s, 0, b);
    }
    MatchesWithoutBracket(s, b);
    assert ParsePhxKey(Some(s)) == Matches(s, 0) by {
      if s == "" { assert Matches(s, 0) == []; }
    }
  }

  /** Without a ']', parsePhxKey splits on '.' and drops the empty pieces. */
  lemma ParsePhxKeyWithoutBracket(s: string)
    requires ']' !in s
    ensures ParsePhxKey(Some(s)) == NonEmptyPieces(s)
  {
    ParsePhxKeyIsPiecesAfterLastBracket(s);
    assert AfterLastBracket(s) == s;
  }

  /** The non-empty pieces of "a..b". */
  lemma PiecesExample()
    ensures NonEmptyPieces("a..b") == ["a", "b"]
  {
    assert "a..b" == "a" + "..b";
    PiecesAfterRun("a", "..b");
    PiecesAfterDot("..b");
    assert "..b"[1..] == ".b";
    PiecesAfterDot(".b");
    assert ".b"[1..] == "b";
    assert "b" == "b" + "";
    PiecesAfterRun("b", "");
    assert Split("") == [""];
  }

  /** `parsePhxKey("a..b")` is `["a", "b"]`: the empty piece between the dots is dropped. */
  lemma ParsePhxKeyExample()
    ensures ParsePhxKey(Some("a..b")) == ["a", "b"]
  {
    ParsePhxKeyWithoutBracket("a..b");
    PiecesExample();
  }
}
