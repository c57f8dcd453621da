/**
 * The phx-key / phx-window-keydown matcher `hasSpecificKeyBeenPressed` of
 * assets/js/phoenix_live_view/utils.js: does a keyboard event satisfy the
 * requested key tokens?
 *
 * `Satisfied` is the rule written declaratively; `HasSpecificKeyBeenPressed`
 * follows the source statement by statement (its filter pipelines and the
 * reassignment of `keys`) and is proved to compute `Satisfied`.
 */
module KeyCombo {

  import opened Wrappers
  import opened JsArray
  import opened KeyNormalizer

  /** The fields of a KeyboardEvent the matcher reads. `key` may be undefined. */
  datatype KeyEvent = KeyEvent(key: Option<string>, ctrlKey: bool, shiftKey: bool, altKey: bool, metaKey: bool)

  /** The system modifiers, in the order the source lists them. */
  const SystemKeyModifiers: seq<string> := ["ctrl", "shift", "alt", "meta", "cmd", "super"]

  predicate IsSystemModifier(t: string) { t in SystemKeyModifiers }

  /** A token that is not a system modifier; these survive the filter of line 102. */
  predicate IsResidual(t: string) { !IsSystemModifier(t) }

  /**
   * `e[`${name}Key`]`: the event's flag of that name. The last branch, an
   * undefined property and so falsy, is never taken: ActivelyPressed passes
   * only "ctrl", "shift", "alt" or "meta".
   */
  function EventFlag(e: KeyEvent, name: string): bool
  {
    if name == "ctrl" then e.ctrlKey
    else if name == "shift" then e.shiftKey
    else if name == "alt" then e.altKey
    else if name == "meta" then e.metaKey
    else false
  }

  /** Whether the event holds the modifier a system-modifier token requests; "cmd" and "super" mean the meta key. */
  predicate ModifierHeld(e: KeyEvent, m: string)
  {
    match m
    case "ctrl" => e.ctrlKey
    case "shift" => e.shiftKey
    case "alt" => e.altKey
    case "meta" => e.metaKey
    case "cmd" => e.metaKey
    case "super" => e.metaKey
    case _ => false
  }

  /** The first token that is not a system modifier, if any. */
  function FirstResidual(keys: seq<string>): (r: Option<string>)
    ensures r.None? <==> forall i :: 0 <= i < |keys| ==> IsSystemModifier(keys[i])
    ensures r.Some? ==> exists i :: 0 <= i < |keys| && keys[i] == r.value && !IsSystemModifier(keys[i])
                                   && forall j :: 0 <= j < i ==> IsSystemModifier(keys[j])
  {
    if |keys| == 0 then None
    else if !IsSystemModifier(keys[0]) then Some(keys[0])
    else
      var r := FirstResidual(keys[1..]);
      assert r.Some? ==> exists i :: 0 < i < |keys| && keys[i] == r.value && !IsSystemModifier(keys[i])
                                   && forall j :: 0 <= j < i ==> IsSystemModifier(keys[j]) by {
        if r.Some? {
          var i :| 0 <= i < |keys[1..]| && keys[1..][i] == r.value && !IsSystemModifier(keys[1..][i])
                   && forall j :: 0 <= j < i ==> IsSystemModifier(keys[1..][j]);
          assert forall j :: 0 < j < i + 1 ==> keys[j] == keys[1..][j - 1];
        }
      }
      r
  }

  /**
   * The matching rule. The event satisfies the tokens when
   *   - no token is requested (any key press counts), or
   *   - exactly one token is requested and it names the pressed key, or
   *   - at least one system modifier is requested, every requested system
   *     modifier is held, and the first token that is not a system modifier
   *     names the pressed key; held modifiers that were not requested, and any
   *     later non-modifier tokens, play no part.
   */
  predicate Satisfied(e: KeyEvent, keys: seq<string>)
  {
    || |keys| == 0
    || (|keys| == 1 && keys[0] in KeyToModifiers(e.key))
    || ( (exists i :: 0 <= i < |keys| && IsSystemModifier(keys[i]))
         && (forall i :: 0 <= i < |keys| && IsSystemModifier(keys[i]) ==> ModifierHeld(e, keys[i]))
         && FirstResidual(keys).Some? && FirstResidual(keys).value in KeyToModifiers(e.key))
  }

  /** The residual list of line 102 starts with the first non-modifier token. */
  lemma {:induction false} ResidualsStartWithFirstResidual(keys: seq<string>)
    ensures |Filter(IsResidual, keys)| == 0 <==> FirstResidual(keys).None?
    ensures |Filter(IsResidual, keys)| > 0 ==> Filter(IsResidual, keys)[0] == FirstResidual(keys).value
  {
    if |keys| > 0 && IsSystemModifier(keys[0]) {
      ResidualsStartWithFirstResidual(keys[1..]);
    }
  }

  /** Line 100: the system modifiers the tokens request, in the order of SystemKeyModifiers. */
  function SelectedSystemModifiers(keys: seq<string>): (selected: seq<string>)
    ensures forall t :: t in selected <==> t in keys && IsSystemModifier(t)
  {
    Filter(m => m in keys, SystemKeyModifiers)
  }

  /** Lines 104-109: the selected modifiers whose flag is set, "cmd" and "super" read as "meta". */
  function ActivelyPressed(e: KeyEvent, selected: seq<string>): (active: seq<string>)
    ensures forall m :: m in active <==> m in selected && ModifierHeld(e, m)
  {
    Filter(m => EventFlag(e, if m == "cmd" || m == "super" then "meta" else m), selected)
  }

  /** All selected modifiers are pressed exactly when filtering the pressed ones drops none. */
  lemma AllPressed(e: KeyEvent, selected: seq<string>)
    ensures |ActivelyPressed(e, selected)| == |selected| <==> forall m :: m in selected ==> ModifierHeld(e, m)
  {
    var isPressed := m => EventFlag(e, if m == "cmd" || m == "super" then "meta" else m);
    FilterKeepsAll(isPressed, selected);
    assert forall m :: m in selected ==> (isPressed(m) <==> ModifierHeld(e, m));
  }

  /** Line 102: dropping the selected modifiers leaves the tokens that are not system modifiers. */
  lemma RemainingTokens(keys: seq<string>)
    ensures Filter(t => t !in SelectedSystemModifiers(keys), keys) == Filter(IsResidual, keys)
  {
    var selected := SelectedSystemModifiers(keys);
    FilterCongruent(t => t !in selected, IsResidual, keys);
  }

  /** `hasSpecificKeyBeenPressed(e, keys)`. */
  method HasSpecificKeyBeenPressed(e: KeyEvent, keys: seq<string>) returns (pressed: bool)
    ensures pressed == Satisfied(e, keys)
  {
    if |keys| == 0 { return true; }
    if |keys| == 1 && keys[0] in KeyToModifiers(e.key) { return true; }

    var selected := SelectedSystemModifiers(keys);
    var rest := Filter(t => t !in selected, keys);
    RemainingTokens(keys);
    ResidualsStartWithFirstResidual(keys);
    if |selected| > 0 {
      var active := ActivelyPressed(e, selected);
      AllPressed(e, selected);
      if |active| == |selected| {
        if |rest| > 0 && rest[0] in KeyToModifiers(e.key) { return true; }
      } else {
        var m :| m in selected && !ModifierHeld(e, m);
        var i :| 0 <= i < |keys| && keys[i] == m;
      }
    } else {
      assert forall i :: 0 <= i < |keys| ==> keys[i] !in selected;
    }
    return false;
  }

  // ---- Properties of the rule ---------------------------------------------

  /** An empty token list matches every event. */
  lemma EmptyRequestMatches(e: KeyEvent)
    ensures Satisfied(e, [])
  {
  }

  /** A single token naming the pressed key matches whatever modifiers are held or not. */
  lemma SingleTokenIgnoresModifiers(e: KeyEvent, e': KeyEvent, t: string)
    requires e'.key == e.key
    requires t in KeyToModifiers(e.key)
    ensures Satisfied(e, [t]) && Satisfied(e', [t])
  {
  }

  /**
   * Outside the single-token shortcut, a match needs every requested system
   * modifier held, with "cmd" and "super" read from the meta key.
   */
  lemma {:induction false} MatchNeedsRequestedModifiers(e: KeyEvent, keys: seq<string>, i: nat)
    requires Satisfied(e, keys)
    requires |keys| != 1 || keys[0] !in KeyToModifiers(e.key)
    requires i < |keys| && IsSystemModifier(keys[i])
    ensures keys[i] == "ctrl" ==> e.ctrlKey
    ensures keys[i] == "shift" ==> e.shiftKey
    ensures keys[i] == "alt" ==> e.altKey
    ensures keys[i] in {"meta", "cmd", "super"} ==> e.metaKey
  {
    assert ModifierHeld(e, keys[i]);
  }

  /**
   * "At least" semantics: holding more modifiers than were requested never turns
   * a match into a mismatch.
   */
  lemma ExtraModifiersNeverHurt(e: KeyEvent, e': KeyEvent, keys: seq<string>)
    requires Satisfied(e, keys)
    requires e'.key == e.key
    requires e.ctrlKey ==> e'.ctrlKey
    requires e.shiftKey ==> e'.shiftKey
    requires e.altKey ==> e'.altKey
    requires e.metaKey ==> e'.metaKey
    ensures Satisfied(e', keys)
  {
    if |keys| > 1 || (|keys| == 1 && keys[0] !in KeyToModifiers(e.key)) {
      forall i | 0 <= i < |keys| && IsSystemModifier(keys[i]) ensures ModifierHeld(e', keys[i]) {
        assert ModifierHeld(e, keys[i]);
      }
    }
  }

  /** Two or more tokens without any system modifier never match. */
  lemma NoModifierNoCombination(e: KeyEvent, keys: seq<string>)
    requires |keys| >= 2
    requires forall i :: 0 <= i < |keys| ==> !IsSystemModifier(keys[i])
    ensures !Satisfied(e, keys)
  {
  }

  /** Modifier tokens with nothing else match only through the single-token shortcut. */
  lemma OnlyModifiersNeedShortcut(e: KeyEvent, keys: seq<string>)
    requires forall i :: 0 <= i < |keys| ==> IsSystemModifier(keys[i])
    requires Satisfied(e, keys)
    ensures |keys| <= 1
    ensures |keys| == 1 ==> keys[0] in KeyToModifiers(e.key)
  {
  }

  /** ["shift"] matches only a key that itself kebab-cases to "shift". */
  lemma ShiftAloneNeedsShiftKey(e: KeyEvent)
    ensures Satisfied(e, ["shift"]) <==> e.key.Some? && e.key.value != "" && KebabCase(e.key.value) == "shift"
  {
    if Satisfied(e, ["shift"]) {
      OnlyModifiersNeedShortcut(e, ["shift"]);
      assert e.key.Some? && e.key.value != "";
      assert "shift" !in AliasTable;
    }
  }

  /** "ctrl+k" matches exactly when ctrl is held and the pressed key is known as "k". */
  lemma CtrlK(e: KeyEvent)
    ensures Satisfied(e, ["ctrl", "k"]) <==> e.ctrlKey && "k" in KeyToModifiers(e.key)
  {
    assert ["ctrl", "k"][1..] == ["k"];
    assert IsSystemModifier(["ctrl", "k"][0]);
  }

  /** "cmd" and "meta" are interchangeable as the requested modifier of a two-token combination. */
  lemma CmdMeansMeta(e: KeyEvent, k: string)
    ensures Satisfied(e, ["cmd", k]) == Satisfied(e, ["meta", k])
  {
    assert ["cmd", k][1..] == [k] && ["meta", k][1..] == [k];
    assert IsSystemModifier("cmd") && IsSystemModifier("meta");
    assert FirstResidual(["cmd", k]) == FirstResidual([k]) == FirstResidual(["meta", k]);
  }

  /**
   * Only the first non-modifier token is compared with the pressed key: tokens
   * appended after it are ignored.
   */
  lemma {:induction false} LaterResidualsIgnored(e: KeyEvent, keys: seq<string>, extra: seq<string>)
    requires |keys| >= 2 && FirstResidual(keys).Some?
    requires forall i :: 0 <= i < |extra| ==> !IsSystemModifier(extra[i])
    ensures Satisfied(e, keys + extra) == Satisfied(e, keys)
  {
    FirstResidualOfPrefix(keys, extra);
    var all := keys + extra;
    assert forall i :: 0 <= i < |keys| ==> all[i] == keys[i];
    assert forall i :: |keys| <= i < |all| ==> all[i] == extra[i - |keys|];
    assert (exists i :: 0 <= i < |all| && IsSystemModifier(all[i])) == (exists i :: 0 <= i < |keys| && IsSystemModifier(keys[i]));
    assert (forall i :: 0 <= i < |all| && IsSystemModifier(all[i]) ==> ModifierHeld(e, all[i]))
        == (forall i :: 0 <= i < |keys| && IsSystemModifier(keys[i]) ==> ModifierHeld(e, keys[i]));
    assert Satisfied(e, all) == Satisfied(e, keys);
  }

  /** The first non-modifier token of a list is also the first of any extension of it. */
  lemma {:induction false} FirstResidualOfPrefix(keys: seq<string>, extra: seq<string>)
    requires FirstResidual(keys).Some?
    ensures FirstResidual(keys + extra) == FirstResidual(keys)
  {
    assert (keys + extra)[0] == keys[0];
    if IsSystemModifier(keys[0]) {
      assert (keys + extra)[1..] == keys[1..] + extra;
      FirstResidualOfPrefix(keys[1..], extra);
    }
  }
}
