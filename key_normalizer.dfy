/**
 * Key-name normalisation for phx-key bindings: `kebabCase` and the alias
 * expansion `keyToModifiers` of assets/js/phoenix_live_view/utils.js.
 *
 * kebabCase is three string rewrites applied in turn:
 *   1. `.replace(/([a-z])([A-Z])/g, '$1-$2')` -- HyphenateBoundaries
 *   2. `.replace(/[_\s]/, '-')`                -- ReplaceFirstSeparator
 *   3. `.toLowerCase()`                        -- ToLowerAscii
 * except that a key that is exactly " " or "_" is returned unchanged.
 */
module KeyNormalizer {

  import opened Wrappers

  predicate IsAsciiLower(c: char) { 'a' <= c <= 'z' }

  predicate IsAsciiUpper(c: char) { 'A' <= c <= 'Z' }

  /**
   * The characters of the class `\s` in an ECMAScript regular expression:
   * WhiteSpace (TAB, VT, FF, ZWNBSP and every Zs space) and LineTerminator
   * (LF, CR, LS, PS).
   */
  predicate IsJsWhitespace(c: char)
  {
    var n := c as int;
    n == 0x09 || n == 0x0A || n == 0x0B || n == 0x0C || n == 0x0D || n == 0x20 ||
    n == 0xA0 || n == 0x1680 || (0x2000 <= n <= 0x200A) || n == 0x2028 || n == 0x2029 ||
    n == 0x202F || n == 0x205F || n == 0x3000 || n == 0xFEFF
  }

  /** The class `[_\s]`. */
  predicate IsSeparator(c: char) { c == '_' || IsJsWhitespace(c) }

  /** True when a lower-case letter at `i` is directly followed by an upper-case one. */
  predicate IsWordBoundary(s: string, i: int)
    requires 0 <= i
  {
    i + 1 < |s| && IsAsciiLower(s[i]) && IsAsciiUpper(s[i + 1])
  }

  /**
   * Step 1, `.replace(/([a-z])([A-Z])/g, '$1-$2')`: the global scan replaces a
   * match of two characters and resumes after it. Afterwards no lower-case letter
   * is directly followed by an upper-case one.
   */
  function HyphenateBoundaries(s: string): (r: string)
    ensures |r| >= |s|
    ensures |s| > 0 ==> |r| > 0 && r[0] == s[0]
    ensures forall i :: 0 <= i < |r| - 1 ==> !(IsAsciiLower(r[i]) && IsAsciiUpper(r[i + 1]))
  {
    if |s| < 2 then s
    else if IsAsciiLower(s[0]) && IsAsciiUpper(s[1]) then [s[0], '-', s[1]] + HyphenateBoundaries(s[2..])
    else [s[0]] + HyphenateBoundaries(s[1..])
  }

  /**
   * Reference reading of step 1, one character at a time: every character is
   * copied and followed by a hyphen exactly when it ends a lower-to-upper boundary.
   */
  function HyphenAfterBoundaries(s: string): string
  {
    if |s| == 0 then ""
    else [s[0]] + (if IsWordBoundary(s, 0) then "-" else "") + HyphenAfterBoundaries(s[1..])
  }

  /** The regex scan, which skips over both characters of a match, inserts the same hyphens. */
  lemma {:induction false} HyphenateBoundariesMatchesReference(s: string)
    ensures HyphenateBoundaries(s) == HyphenAfterBoundaries(s)
  {
    if |s| >= 2 {
      if IsAsciiLower(s[0]) && IsAsciiUpper(s[1]) {
        HyphenateBoundariesMatchesReference(s[2..]);
        assert s[1..][1..] == s[2..];
        assert !IsWordBoundary(s[1..], 0);
        assert HyphenAfterBoundaries(s[1..]) == [s[1]] + HyphenAfterBoundaries(s[2..]);
      } else {
        HyphenateBoundariesMatchesReference(s[1..]);
      }
    }
  }

  /** True when position `k` holds the first underscore or whitespace character of `s`. */
  predicate IsFirstSeparator(s: string, k: int)
    requires 0 <= k < |s|
  {
    IsSeparator(s[k]) && forall j :: 0 <= j < k ==> !IsSeparator(s[j])
  }

  /** Past a head that is no separator, the first separator is the first one of the tail. */
  lemma FirstSeparatorAfterHead(s: string, k: int)
    requires 0 < k < |s| && !IsSeparator(s[0])
    ensures IsFirstSeparator(s, k) <==> IsFirstSeparator(s[1..], k - 1)
  {
    assert forall j :: 0 <= j < k - 1 ==> s[1..][j] == s[j + 1];
    if IsFirstSeparator(s[1..], k - 1) {
      forall j | 0 <= j < k ensures !IsSeparator(s[j]) {
        if j > 0 { assert s[j] == s[1..][j - 1]; }
      }
    }
  }

  /**
   * Step 2, `.replace(/[_\s]/, '-')`: without the `g` flag only the FIRST
   * underscore or whitespace character becomes a hyphen; later ones stay.
   */
  function ReplaceFirstSeparator(s: string): (r: string)
    ensures |r| == |s|
    ensures forall k :: 0 <= k < |s| ==> r[k] == if IsFirstSeparator(s, k) then '-' else s[k]
  {
    if |s| == 0 then s
    else if IsSeparator(s[0]) then
      assert forall k :: 0 < k < |s| ==> !IsFirstSeparator(s, k);
      "-" + s[1..]
    else
      var t := ReplaceFirstSeparator(s[1..]);
      assert forall k :: 0 < k < |s| ==> (IsFirstSeparator(s, k) <==> IsFirstSeparator(s[1..], k - 1)) by {
        forall k | 0 < k < |s| ensures IsFirstSeparator(s, k) <==> IsFirstSeparator(s[1..], k - 1) {
          FirstSeparatorAfterHead(s, k);
        }
      }
      [s[0]] + t
  }

  /** `toLowerCase` on the ASCII letters; other characters are kept. */
  function LowerChar(c: char): (d: char)
    ensures !IsAsciiUpper(d)
    ensures IsAsciiUpper(c) ==> d as int == c as int + 32
    ensures !IsAsciiUpper(c) ==> d == c
  {
    if IsAsciiUpper(c) then (c as int + 32) as char else c
  }

  /** Step 3, `.toLowerCase()`, character by character. */
  function ToLowerAscii(s: string): (r: string)
    ensures |r| == |s|
    ensures forall i :: 0 <= i < |s| ==> r[i] == LowerChar(s[i])
  {
    if |s| == 0 then "" else [LowerChar(s[0])] + ToLowerAscii(s[1..])
  }

  /** `kebabCase(subject)`. */
  function KebabCase(subject: string): (r: string)
    ensures subject == " " || subject == "_" ==> r == subject
    ensures subject != " " && subject != "_" ==> forall i :: 0 <= i < |r| ==> !IsAsciiUpper(r[i])
    ensures |r| >= |subject|
  {
    if subject == " " || subject == "_" then subject
    else ToLowerAscii(ReplaceFirstSeparator(HyphenateBoundaries(subject)))
  }

  /**
   * The alias table of keyToModifiers: each alias maps to the kebab-cased
   * key value it stands for. No entry maps a name to itself.
   */
  const AliasTable: map<string, string> := map[
    "ctrl" := "control",
    "slash" := "/",
    "space" := " ",
    "spacebar" := " ",
    "cmd" := "meta",
    "esc" := "escape",
    "up" := "arrow-up",
    "down" := "arrow-down",
    "left" := "arrow-left",
    "right" := "arrow-right",
    "period" := ".",
    "equal" := "=",
    "minus" := "-",
    "underscore" := "_"
  ]

  /**
   * `keyToModifiers(key)`: the names a phx-key binding may use for the pressed
   * key. An undefined or empty key has no names. Otherwise the kebab-cased key
   * is written into a copy of the table as its own alias (overwriting an entry
   * of that name) and every truthy name whose value is the kebab-cased key is
   * kept: the key itself, and every table alias pointing at it.
   */
  function KeyToModifiers(key: Option<string>): (r: set<string>)
    ensures key == None || key == Some("") ==> r == {}
    ensures key.Some? && key.value != "" ==>
              forall a :: a in r <==> a == KebabCase(key.value) || (a in AliasTable && AliasTable[a] == KebabCase(key.value))
  {
    match key
    case None => {}
    case Some(s) =>
      if s == "" then {}
      else
        var k := KebabCase(s);
        var m := AliasTable[k := k];
        set a | a in m && m[a] == k && a != ""
  }

  // ---- Properties --------------------------------------------------------

  /** A non-empty key always names itself, in kebab case. */
  lemma KeyToModifiersHasKey(s: string)
    requires s != ""
    ensures KebabCase(s) in KeyToModifiers(Some(s))
  {
    assert KebabCase(s) != "";
  }

  /** Each name is either the kebab-cased key or a table alias whose value is that key. */
  lemma KeyToModifiersOnlyAliases(s: string, a: string)
    requires a in KeyToModifiers(Some(s))
    ensures s != ""
    ensures a == KebabCase(s) || (a in AliasTable && AliasTable[a] == KebabCase(s))
  {
  }

  lemma KebabCaseSpaceAndUnderscore()
    ensures KebabCase(" ") == " "
    ensures KebabCase("_") == "_"
  {
  }

  /** A key without a lower-to-upper boundary gets no hyphen from step 1. */
  lemma HyphenateWithoutBoundary(s: string)
    requires forall i :: 0 <= i < |s| ==> !IsWordBoundary(s, i)
    ensures HyphenateBoundaries(s) == s
  {
    if |s| >= 2 {
      forall i | 0 <= i < |s| - 1 ensures !IsWordBoundary(s[1..], i) {
        assert !IsWordBoundary(s, i + 1);
      }
      HyphenateWithoutBoundary(s[1..]);
      assert !IsWordBoundary(s, 0);
      assert s == [s[0]] + s[1..];
    }
  }

  /** A key made of ASCII letters and hyphens is left alone by step 2. */
  lemma ReplaceWithoutSeparator(s: string)
    requires forall i :: 0 <= i < |s| ==> IsAsciiLower(s[i]) || IsAsciiUpper(s[i]) || s[i] == '-'
    ensures ReplaceFirstSeparator(s) == s
  {
    assert forall i :: 0 <= i < |s| ==> !IsSeparator(s[i]);
  }

  /**
   * Only the key "_" kebab-cases to a name that starts with '_': step 2 turns a
   * leading underscore into a hyphen, and step 3 never produces one. So no key
   * becomes "__proto__", and line 145 always writes an ordinary entry.
   */
  lemma KebabCaseNoLeadingUnderscore(s: string)
    requires s != "" && s != "_"
    ensures KebabCase(s)[0] != '_'
    ensures KebabCase(s) != "__proto__"
  {
    if s != " " {
      var h := HyphenateBoundaries(s);
      if IsSeparator(h[0]) { assert IsFirstSeparator(h, 0); }
    }
  }

  // Each rewrite step on the concrete key values below gets a lemma of its
  // own, so that the verifier evaluates one step at a time.

  lemma HyphenateArrowUp()
    ensures HyphenateBoundaries("arrowUp") == "arrow-Up"
  {
  }

  lemma HyphenateCapitalArrowUp()
    ensures HyphenateBoundaries("ArrowUp") == "Arrow-Up"
  {
  }

  lemma HyphenateEscape()
    ensures HyphenateBoundaries("Escape") == "Escape"
    ensures HyphenateBoundaries("Esc") == "Esc"
  {
  }

  lemma ReplaceArrowUp()
    ensures ReplaceFirstSeparator("arrow-Up") == "arrow-Up"
  {
    ReplaceWithoutSeparator("arrow-Up");
  }

  lemma ReplaceCapitalArrowUp()
    ensures ReplaceFirstSeparator("Arrow-Up") == "Arrow-Up"
  {
    ReplaceWithoutSeparator("Arrow-Up");
  }

  lemma ReplaceEscape()
    ensures ReplaceFirstSeparator("Escape") == "Escape"
    ensures ReplaceFirstSeparator("Esc") == "Esc"
  {
    ReplaceWithoutSeparator("Escape");
    ReplaceWithoutSeparator("Esc");
  }

  lemma LowerArrowUp()
    ensures ToLowerAscii("arrow-Up") == "arrow-up"
  {
  }

  lemma LowerCapitalArrowUp()
    ensures ToLowerAscii("Arrow-Up") == "arrow-up"
  {
  }

  lemma LowerEscape()
    ensures ToLowerAscii("Escape") == "escape"
    ensures ToLowerAscii("Esc") == "esc"
  {
  }

  lemma KebabCaseArrowUp()
    ensures KebabCase("arrowUp") == "arrow-up"
  {
    HyphenateArrowUp();
    ReplaceArrowUp();
    LowerArrowUp();
  }

  lemma KebabCaseCapitalArrowUp()
    ensures KebabCase("ArrowUp") == "arrow-up"
  {
    HyphenateCapitalArrowUp();
    ReplaceCapitalArrowUp();
    LowerCapitalArrowUp();
  }

  lemma KebabCaseEscape()
    ensures KebabCase("Escape") == "escape"
  {
    HyphenateEscape();
    ReplaceEscape();
    LowerEscape();
  }

  lemma KebabCaseEsc()
    ensures KebabCase("Esc") == "esc"
  {
    HyphenateEscape();
    ReplaceEscape();
    LowerEscape();
  }

  lemma HyphenateSnake()
    ensures HyphenateBoundaries("a_b_c") == "a_b_c"
  {
  }

  lemma ReplaceSnake()
    ensures ReplaceFirstSeparator("a_b_c") == "a-b_c"
  {
    assert IsFirstSeparator("a_b_c", 1);
    assert !IsFirstSeparator("a_b_c", 3);
  }

  lemma LowerSnake()
    ensures ToLowerAscii("a-b_c") == "a-b_c"
  {
  }

  /** Only the first separator becomes a hyphen: "a_b_c" kebab-cases to "a-b_c". */
  lemma KebabCaseSnake()
    ensures KebabCase("a_b_c") == "a-b_c"
  {
    HyphenateSnake();
    ReplaceSnake();
    LowerSnake();
  }

  /** The table aliases of a few key values, looked up backwards. */
  lemma AliasesPointingAt(a: string)
    requires a in AliasTable
    ensures AliasTable[a] == "escape" <==> a == "esc"
    ensures AliasTable[a] == "arrow-up" <==> a == "up"
    ensures AliasTable[a] == " " <==> a == "space" || a == "spacebar"
    ensures AliasTable[a] != "esc"
  {
  }

  /** Every key value that kebab-cases to "escape" is known as "esc" and "escape". */
  lemma KeyToModifiersOfEscape(s: string)
    requires s != "" && KebabCase(s) == "escape"
    ensures KeyToModifiers(Some(s)) == {"esc", "escape"}
  {
    var r := KeyToModifiers(Some(s));
    forall a ensures a in r <==> a in {"esc", "escape"} {
      if a in AliasTable { AliasesPointingAt(a); }
    }
  }

  /** Every key value that kebab-cases to "arrow-up" is known as "up" and "arrow-up". */
  lemma KeyToModifiersOfArrowUp(s: string)
    requires s != "" && KebabCase(s) == "arrow-up"
    ensures KeyToModifiers(Some(s)) == {"up", "arrow-up"}
  {
    var r := KeyToModifiers(Some(s));
    forall a ensures a in r <==> a in {"up", "arrow-up"} {
      if a in AliasTable { AliasesPointingAt(a); }
    }
  }

  /**
   * A key value that kebab-cases to "esc" is known by that name only: line 145
   * makes the key its own alias, which is why "esc" is present, and no table
   * entry has the value "esc". Names are only looked up by value, never mapped
   * forward through the table, so "escape" does not appear.
   */
  lemma KeyToModifiersOfEsc(s: string)
    requires s != "" && KebabCase(s) == "esc"
    ensures KeyToModifiers(Some(s)) == {"esc"}
  {
    var r := KeyToModifiers(Some(s));
    forall a ensures a in r <==> a in {"esc"} {
      if a in AliasTable { AliasesPointingAt(a); }
    }
  }

  lemma KeyToModifiersEscape()
    ensures KeyToModifiers(Some("Escape")) == {"esc", "escape"}
  {
    KebabCaseEscape();
    KeyToModifiersOfEscape("Escape");
  }

  lemma KeyToModifiersArrowUp()
    ensures KeyToModifiers(Some("ArrowUp")) == {"up", "arrow-up"}
  {
    KebabCaseCapitalArrowUp();
    KeyToModifiersOfArrowUp("ArrowUp");
  }

  /** The space bar is known as "space", "spacebar" and " ". */
  lemma KeyToModifiersSpace()
    ensures KeyToModifiers(Some(" ")) == {"space", "spacebar", " "}
  {
    var r := KeyToModifiers(Some(" "));
    forall a ensures a in r <==> a in {"space", "spacebar", " "} {
      if a in AliasTable { AliasesPointingAt(a); }
    }
  }

  /** The legacy key value "Esc" is known only as "esc". */
  lemma KeyToModifiersEsc()
    ensures KeyToModifiers(Some("Esc")) == {"esc"}
  {
    KebabCaseEsc();
    KeyToModifiersOfEsc("Esc");
  }
}
