/**
 * The character-to-keystroke engine of LatexFlow (logic/KeyMapper.kt).
 *
 * A LaTeX string is turned into a sequence of HID keystrokes for a US
 * keyboard layout in two passes: a whole-string pre-pass that replaces a
 * fixed set of Unicode math symbols by ASCII LaTeX commands, then a
 * per-character lookup in a table of Keyboard/Keypad page (0x07) usage IDs
 * with an optional left-Shift modifier (section 10 of the USB HID Usage
 * Tables 1.12).  Characters the table does not know are dropped.
 */
module KeyMapper {
  import opened Wrappers

  /** One keystroke: a Keyboard/Keypad usage ID and the modifier byte held with it. */
  datatype HidAction = HidAction(scanCode: int, modifiers: int)

  const ModifierNone := 0
  const ModifierShift := 0x02

  /** The usage ID of the Return (ENTER) key, which the injector waits longer after. */
  const EnterScanCode := 0x28

  /** The explicitly listed part of the table, before letters and digits are added. */
  const Listed: map<char, HidAction> := map[
    ' ' := HidAction(0x2C, ModifierNone),
    '\\' := HidAction(0x31, ModifierNone),
    '{' := HidAction(0x2F, ModifierShift),
    '}' := HidAction(0x30, ModifierShift),
    '_' := HidAction(0x2D, ModifierShift),
    '^' := HidAction(0x1E, ModifierShift),
    '(' := HidAction(0x26, ModifierShift),
    ')' := HidAction(0x27, ModifierShift),
    '[' := HidAction(0x2F, ModifierNone),
    ']' := HidAction(0x30, ModifierNone),
    '+' := HidAction(0x2E, ModifierShift),
    '-' := HidAction(0x2D, ModifierNone),
    '=' := HidAction(0x2E, ModifierNone),
    '/' := HidAction(0x38, ModifierNone),
    '*' := HidAction(0x25, ModifierShift),
    ',' := HidAction(0x36, ModifierNone),
    '.' := HidAction(0x37, ModifierNone),
    ':' := HidAction(0x33, ModifierShift),
    ';' := HidAction(0x33, ModifierNone),
    '\'' := HidAction(0x34, ModifierNone),
    '"' := HidAction(0x34, ModifierShift),
    '<' := HidAction(0x36, ModifierShift),
    '>' := HidAction(0x37, ModifierShift),
    '?' := HidAction(0x38, ModifierShift),
    '|' := HidAction(0x31, ModifierShift),
    '~' := HidAction(0x35, ModifierShift),
    '`' := HidAction(0x35, ModifierNone),
    '!' := HidAction(0x1E, ModifierShift),
    '@' := HidAction(0x1F, ModifierShift),
    '#' := HidAction(0x20, ModifierShift),
    '$' := HidAction(0x21, ModifierShift),
    '%' := HidAction(0x22, ModifierShift),
    '&' := HidAction(0x25, ModifierShift)
  ]

  /** The digit entries, one `put` each in the source. */
  const Digits: map<char, HidAction> := map[
    '1' := HidAction(0x1E, ModifierNone),
    '2' := HidAction(0x1F, ModifierNone),
    '3' := HidAction(0x20, ModifierNone),
    '4' := HidAction(0x21, ModifierNone),
    '5' := HidAction(0x22, ModifierNone),
    '6' := HidAction(0x23, ModifierNone),
    '7' := HidAction(0x24, ModifierNone),
    '8' := HidAction(0x25, ModifierNone),
    '9' := HidAction(0x26, ModifierNone),
    '0' := HidAction(0x27, ModifierNone)
  ]

  /** The character with code `base + i`. */
  function Offset(base: char, i: nat): char
    requires base as int + i < 0xD800
  {
    (base as int + i) as char
  }

  /**
   * The complete table as the source's initialiser leaves it: the listed
   * entries, then 'a'+i and 'A'+i for i in 0..25, then the ten digits.
   * Later `put`s would win over earlier entries; the three groups are disjoint.
   */
  function Lookup(c: char): Option<HidAction>
  {
    if c in Digits then Some(Digits[c])
    else if 'a' <= c <= 'z' then Some(HidAction(0x04 + (c as int - 'a' as int), ModifierNone))
    else if 'A' <= c <= 'Z' then Some(HidAction(0x04 + (c as int - 'A' as int), ModifierShift))
    else if c in Listed then Some(Listed[c])
    else None
  }

  /** `m` holds exactly the entries of the table. */
  ghost predicate IsCharToHid(m: map<char, HidAction>)
  {
    forall c :: (c in m <==> Lookup(c).Some?) && (c in m ==> Lookup(c) == Some(m[c]))
  }

  /** The letter entries put for index `i`. */
  ghost predicate HasLetters(m: map<char, HidAction>, i: nat)
    requires i <= 26
  {
    forall j :: 0 <= j < i ==>
      && Offset('a', j) in m && m[Offset('a', j)] == HidAction(0x04 + j, ModifierNone)
      && Offset('A', j) in m && m[Offset('A', j)] == HidAction(0x04 + j, ModifierShift)
  }

  lemma LookupListed(c: char)
    requires c in Listed
    ensures Lookup(c) == Some(Listed[c])
  {
  }

  lemma LookupLetter(j: nat)
    requires j < 26
    ensures Lookup(Offset('a', j)) == Some(HidAction(0x04 + j, ModifierNone))
    ensures Lookup(Offset('A', j)) == Some(HidAction(0x04 + j, ModifierShift))
  {
  }

  /** What the loop and the digit `put`s leave is the whole table. */
  lemma BuiltTableComplete(m: map<char, HidAction>)
    requires forall c :: c in m <==> c in Listed || 'a' <= c <= 'z' || 'A' <= c <= 'Z'
    requires forall c :: c in Listed && !('a' <= c <= 'z') && !('A' <= c <= 'Z') ==> m[c] == Listed[c]
    requires HasLetters(m, 26)
    ensures IsCharToHid(m + Digits)
  {
    forall c
      ensures (c in m + Digits <==> Lookup(c).Some?) && (c in m + Digits ==> Lookup(c) == Some((m + Digits)[c]))
    {
      if c in Digits {
      } else if 'a' <= c <= 'z' {
        var j := c as int - 'a' as int;
        assert c == Offset('a', j);
        LookupLetter(j);
      } else if 'A' <= c <= 'Z' {
        var j := c as int - 'A' as int;
        assert c == Offset('A', j);
        LookupLetter(j);
      } else if c in Listed {
        LookupListed(c);
      }
    }
  }

  /** The source's `for (i in 0..25)` loop: `put('a' + i, ...)` and `put('A' + i, ...)`. */
  method PutLetters(start: map<char, HidAction>) returns (m: map<char, HidAction>)
    ensures forall c :: c in m <==> c in start || 'a' <= c <= 'z' || 'A' <= c <= 'Z'
    ensures forall c :: c in start && !('a' <= c <= 'z') && !('A' <= c <= 'Z') ==> m[c] == start[c]
    ensures HasLetters(m, 26)
  {
    m := start;
    for i := 0 to 26
      invariant forall c :: c in m <==> c in start || 'a' <= c < Offset('a', i) || 'A' <= c < Offset('A', i)
      invariant forall c :: c in start && !('a' <= c < Offset('a', i)) && !('A' <= c < Offset('A', i)) ==> m[c] == start[c]
      invariant HasLetters(m, i)
    {
      ghost var before := m;
      m := m[Offset('a', i) := HidAction(0x04 + i, ModifierNone)];
      m := m[Offset('A', i) := HidAction(0x04 + i, ModifierShift)];
      assert HasLetters(m, i + 1) by {
        forall j | 0 <= j < i + 1
          ensures Offset('a', j) in m && m[Offset('a', j)] == HidAction(0x04 + j, ModifierNone)
          ensures Offset('A', j) in m && m[Offset('A', j)] == HidAction(0x04 + j, ModifierShift)
        {
          if j < i {
            assert Offset('a', j) != Offset('A', i) && Offset('a', j) != Offset('a', i);
            assert Offset('A', j) != Offset('A', i);
            assert before[Offset('a', j)] == HidAction(0x04 + j, ModifierNone);
            assert before[Offset('A', j)] == HidAction(0x04 + j, ModifierShift);
          }
        }
      }
    }
  }

  /** Builds the table as the companion object does: start from the listed entries, then `put`. */
  method BuildCharToHid() returns (m: map<char, HidAction>)
    ensures IsCharToHid(m)
  {
    m := PutLetters(Listed);
    BuiltTableComplete(m);
    // the ten digit `put`s
    m := m + Digits;
  }

  // ---------------------------------------------------------------------------
  // The Unicode pre-pass

  /** The substitutions, in the source's (insertion) order. */
  const UnicodeToLatex: seq<(char, string)> := [
    ('α', "\\alpha"), ('β', "\\beta"), ('γ', "\\gamma"), ('δ', "\\delta"),
    ('θ', "\\theta"), ('π', "\\pi"), ('σ', "\\sigma"), ('ω', "\\omega"),
    ('Σ', "\\sum"), ('Δ', "\\Delta"), ('Φ', "\\Phi"), ('Ω', "\\Omega"),
    ('∫', "\\int"), ('≈', "\\approx"), ('≠', "\\neq"), ('≤', "\\le"), ('≥', "\\ge"),
    ('±', "\\pm"), ('∞', "\\infty"), ('×', "\\times"), ('÷', "\\div")
  ]

  /** `s.replace(c.toString(), r)`: every occurrence of the one-character pattern becomes `r`. */
  function ReplaceAll(s: string, c: char, r: string): string
  {
    if s == [] then []
    else (if s[0] == c then r else [s[0]]) + ReplaceAll(s[1..], c, r)
  }

  /** The pre-pass as written: one whole-string replace per table entry, in table order. */
  function ApplyInOrder(table: seq<(char, string)>, s: string): string
  {
    if table == [] then s
    else ApplyInOrder(table[1..], ReplaceAll(s, table[0].0, table[0].1))
  }

  /** What a single character becomes: the replacement of the first entry for it, or itself. */
  function SubstituteChar(table: seq<(char, string)>, c: char): string
  {
    if table == [] then [c]
    else if table[0].0 == c then table[0].1
    else SubstituteChar(table[1..], c)
  }

  /** Character-by-character substitution, the reference definition of the pre-pass. */
  function SubstituteEach(table: seq<(char, string)>, s: string): string
  {
    if s == [] then []
    else SubstituteChar(table, s[0]) + SubstituteEach(table, s[1..])
  }

  /** No replacement text contains a character that is itself a key of the table. */
  ghost predicate KeyFree(table: seq<(char, string)>)
  {
    forall i, j, k :: 0 <= i < |table| && 0 <= j < |table| && 0 <= k < |table[i].1| ==> table[i].1[k] != table[j].0
  }

  /** No character of `s` is a key of the table. */
  ghost predicate NoKeyIn(table: seq<(char, string)>, s: string)
  {
    forall j, k :: 0 <= j < |table| && 0 <= k < |s| ==> s[k] != table[j].0
  }

  lemma {:induction false} SubstituteEachAppend(table: seq<(char, string)>, a: string, b: string)
    ensures SubstituteEach(table, a + b) == SubstituteEach(table, a) + SubstituteEach(table, b)
  {
    if a != [] {
      assert (a + b)[0] == a[0];
      assert (a + b)[1..] == a[1..] + b;
      SubstituteEachAppend(table, a[1..], b);
    } else {
      assert a + b == b;
    }
  }

  lemma {:induction false} SubstituteCharNonKey(table: seq<(char, string)>, c: char)
    requires forall j :: 0 <= j < |table| ==> c != table[j].0
    ensures SubstituteChar(table, c) == [c]
  {
    if table != [] {
      assert c != table[0].0;
      SubstituteCharNonKey(table[1..], c);
    }
  }

  /** A string with no key characters is left alone by the substitution. */
  lemma {:induction false} SubstituteEachKeyFree(table: seq<(char, string)>, s: string)
    requires NoKeyIn(table, s)
    ensures SubstituteEach(table, s) == s
  {
    if s != [] {
      assert forall j :: 0 <= j < |table| ==> s[0] != table[j].0;
      SubstituteCharNonKey(table, s[0]);
      assert NoKeyIn(table, s[1..]) by {
        forall j, k | 0 <= j < |table| && 0 <= k < |s[1..]| ensures s[1..][k] != table[j].0 {
          assert s[1..][k] == s[k + 1];
        }
      }
      SubstituteEachKeyFree(table, s[1..]);
    }
  }

  /** Replacing the first entry's key, then substituting with the rest, is substituting with all. */
  lemma {:induction false} ReplaceThenRest(table: seq<(char, string)>, s: string)
    requires table != [] && KeyFree(table)
    ensures SubstituteEach(table[1..], ReplaceAll(s, table[0].0, table[0].1)) == SubstituteEach(table, s)
  {
    var rest := table[1..];
    var c0, r0 := table[0].0, table[0].1;
    if s != [] {
      var head := if s[0] == c0 then r0 else [s[0]];
      assert ReplaceAll(s, c0, r0) == head + ReplaceAll(s[1..], c0, r0);
      SubstituteEachAppend(rest, head, ReplaceAll(s[1..], c0, r0));
      ReplaceThenRest(table, s[1..]);
      if s[0] == c0 {
        assert NoKeyIn(rest, r0) by {
          forall j, k | 0 <= j < |rest| && 0 <= k < |r0| ensures r0[k] != rest[j].0 {
            assert rest[j] == table[j + 1];
          }
        }
        SubstituteEachKeyFree(rest, r0);
      } else {
        assert SubstituteEach(rest, [s[0]]) == SubstituteChar(rest, s[0]) + SubstituteEach(rest, []);
      }
    }
  }

  /** The in-order whole-string replaces agree with per-character substitution. */
  lemma {:induction false} ApplyInOrderIsSubstituteEach(table: seq<(char, string)>, s: string)
    requires KeyFree(table)
    ensures ApplyInOrder(table, s) == SubstituteEach(table, s)
  {
    if table == [] {
      SubstituteEachKeyFree(table, s);
    } else {
      assert KeyFree(table[1..]) by {
        forall i, j, k | 0 <= i < |table[1..]| && 0 <= j < |table[1..]| && 0 <= k < |table[1..][i].1|
          ensures table[1..][i].1[k] != table[1..][j].0
        {
          assert table[1..][i] == table[i + 1] && table[1..][j] == table[j + 1];
        }
      }
      ApplyInOrderIsSubstituteEach(table[1..], ReplaceAll(s, table[0].0, table[0].1));
      ReplaceThenRest(table, s);
    }
  }

  /** The keys are non-ASCII and the replacement texts are ASCII, so the table is key-free. */
  lemma UnicodeToLatexKeyFree()
    ensures forall j :: 0 <= j < |UnicodeToLatex| ==> UnicodeToLatex[j].0 as int >= 128
    ensures forall i, k :: 0 <= i < |UnicodeToLatex| && 0 <= k < |UnicodeToLatex[i].1| ==>
      UnicodeToLatex[i].1[k] as int < 128
    ensures KeyFree(UnicodeToLatex)
  {
    var t := UnicodeToLatex;
    assert forall j :: 0 <= j < |t| ==> t[j].0 as int >= 128;
    assert forall i, k :: 0 <= i < |t| && 0 <= k < |t[i].1| ==> t[i].1[k] as int < 128;
  }

  /** The pre-pass of `mapToActions` over the source's table. */
  function Substitute(latex: string): string
  {
    ApplyInOrder(UnicodeToLatex, latex)
  }

  lemma SubstituteIsPerCharacter(latex: string)
    ensures Substitute(latex) == SubstituteEach(UnicodeToLatex, latex)
  {
    UnicodeToLatexKeyFree();
    ApplyInOrderIsSubstituteEach(UnicodeToLatex, latex);
  }

  // ---------------------------------------------------------------------------
  // The per-character pass

  /** The keystrokes of `s`, one per character the table knows, in order. */
  function ActionsOf(s: string): seq<HidAction>
  {
    if s == [] then []
    else (match Lookup(s[0]) case Some(a) => [a] case None => []) + ActionsOf(s[1..])
  }

  /** What `mapToActions(latex)` returns. */
  function Keystrokes(latex: string): seq<HidAction>
  {
    ActionsOf(Substitute(latex))
  }

  lemma {:induction false} ActionsOfAppend(a: string, b: string)
    ensures ActionsOf(a + b) == ActionsOf(a) + ActionsOf(b)
  {
    if a != [] {
      assert (a + b)[0] == a[0];
      assert (a + b)[1..] == a[1..] + b;
      ActionsOfAppend(a[1..], b);
    } else {
      assert a + b == b;
    }
  }

  /** The source's `forEach` over the substitution table: one whole-string replace per entry. */
  method ReplaceInOrder(table: seq<(char, string)>, latex: string) returns (processed: string)
    ensures processed == ApplyInOrder(table, latex)
  {
    processed := latex;
    for n := 0 to |table|
      invariant ApplyInOrder(table[n..], processed) == ApplyInOrder(table, latex)
    {
      assert table[n..][1..] == table[n + 1..];
      processed := ReplaceAll(processed, table[n].0, table[n].1);
    }
  }

  /** Looks every character up in `charToHid` and keeps the hits, in order. */
  method LookupEach(charToHid: map<char, HidAction>, processed: string) returns (actions: seq<HidAction>)
    requires IsCharToHid(charToHid)
    ensures actions == ActionsOf(processed)
  {
    actions := [];
    for i := 0 to |processed|
      invariant actions == ActionsOf(processed[..i])
    {
      var c := processed[i];
      assert processed[..i + 1] == processed[..i] + [c];
      ActionsOfAppend(processed[..i], [c]);
      if c in charToHid {
        actions := actions + [charToHid[c]];
      }
    }
    assert processed[..|processed|] == processed;
  }

  /** Builds the action list as the source does: pre-pass, then one lookup per character. */
  method MapToActions(latex: string) returns (actions: seq<HidAction>)
    ensures actions == Keystrokes(latex)
  {
    var charToHid := BuildCharToHid();
    var processed := ReplaceInOrder(UnicodeToLatex, latex);
    actions := LookupEach(charToHid, processed);
  }
}

/** Properties of the keystrokes `mapToActions` produces. */
module KeyMapperProperties {
  import opened Wrappers
  import opened KeyMapper

  /** Every action is a plain or shifted key inside the descriptor's keycode range 0..101, and never Return. */
  predicate WellFormedAction(a: HidAction)
  {
    && (a.modifiers == ModifierNone || a.modifiers == ModifierShift)
    && 0x04 <= a.scanCode <= 0x38
    && a.scanCode != EnterScanCode
  }

  /** All characters of `s` are in the table. */
  ghost predicate AllMapped(s: string)
  {
    forall k :: 0 <= k < |s| ==> Lookup(s[k]).Some?
  }

  lemma LookupWellFormed(c: char)
    ensures Lookup(c).Some? ==> WellFormedAction(Lookup(c).value) && c as int < 128
  {
    if c in Listed {
      assert c as int < 128 && WellFormedAction(Listed[c]);
    }
  }

  /** Plain ASCII text is not touched by the pre-pass. */
  lemma {:induction false} AsciiNotSubstituted(s: string)
    requires forall k :: 0 <= k < |s| ==> s[k] as int < 128
    ensures Substitute(s) == s
  {
    var t := UnicodeToLatex;
    assert forall j :: 0 <= j < |t| ==> t[j].0 as int >= 128;
    SubstituteIsPerCharacter(s);
    SubstituteEachKeyFree(t, s);
  }

  lemma {:induction false} ActionsOfWellFormed(s: string)
    ensures forall k :: 0 <= k < |ActionsOf(s)| ==> WellFormedAction(ActionsOf(s)[k])
  {
    if s != [] {
      LookupWellFormed(s[0]);
      ActionsOfWellFormed(s[1..]);
    }
  }

  lemma {:induction false} ActionsOfLength(s: string)
    ensures |ActionsOf(s)| <= |s|
    ensures AllMapped(s) ==> (|ActionsOf(s)| == |s| &&
      forall k :: 0 <= k < |s| ==> ActionsOf(s)[k] == Lookup(s[k]).value)
  {
    if s != [] {
      ActionsOfLength(s[1..]);
      if AllMapped(s) {
        assert AllMapped(s[1..]) by {
          forall k | 0 <= k < |s[1..]| ensures Lookup(s[1..][k]).Some? {
            assert s[1..][k] == s[k + 1];
          }
        }
        forall k | 0 <= k < |s| ensures ActionsOf(s)[k] == Lookup(s[k]).value {
          if k > 0 {
            assert s[1..][k - 1] == s[k];
          }
        }
      }
    }
  }

  /** `mapToActions` distributes over concatenation. */
  lemma KeystrokesAppend(a: string, b: string)
    ensures Keystrokes(a + b) == Keystrokes(a) + Keystrokes(b)
  {
    SubstituteIsPerCharacter(a);
    SubstituteIsPerCharacter(b);
    SubstituteIsPerCharacter(a + b);
    SubstituteEachAppend(UnicodeToLatex, a, b);
    ActionsOfAppend(Substitute(a), Substitute(b));
  }

  /** Every produced keystroke is a plain or shifted key in 0x04..0x38 other than Return. */
  lemma KeystrokesWellFormed(latex: string)
    ensures forall k :: 0 <= k < |Keystrokes(latex)| ==> WellFormedAction(Keystrokes(latex)[k])
  {
    ActionsOfWellFormed(Substitute(latex));
  }

  /** Unmapped characters are skipped, so there are never more keystrokes than substituted characters. */
  lemma KeystrokesLength(latex: string)
    ensures |Keystrokes(latex)| <= |Substitute(latex)|
  {
    ActionsOfLength(Substitute(latex));
  }

  /** Text made only of table characters is typed one keystroke per character, in order. */
  lemma KeystrokesOfMappedText(s: string)
    requires AllMapped(s)
    ensures |Keystrokes(s)| == |s|
    ensures forall k :: 0 <= k < |s| ==> Keystrokes(s)[k] == Lookup(s[k]).value
  {
    forall k | 0 <= k < |s| ensures s[k] as int < 128 {
      LookupWellFormed(s[k]);
    }
    AsciiNotSubstituted(s);
    ActionsOfLength(s);
  }

  /** A character that is neither substituted nor in the table produces no keystroke. */
  lemma UnknownCharacterDropped(c: char)
    requires Lookup(c).None?
    requires forall j :: 0 <= j < |UnicodeToLatex| ==> c != UnicodeToLatex[j].0
    ensures Keystrokes([c]) == []
  {
    SubstituteIsPerCharacter([c]);
    SubstituteCharNonKey(UnicodeToLatex, c);
    assert SubstituteEach(UnicodeToLatex, [c]) == SubstituteChar(UnicodeToLatex, c) + SubstituteEach(UnicodeToLatex, []);
    assert ActionsOf([c]) == [] + ActionsOf([]);
  }

  /** Such a character is skipped and the rest of the string is still typed. */
  lemma UnknownCharacterSkipped(a: string, c: char, b: string)
    requires Lookup(c).None?
    requires forall j :: 0 <= j < |UnicodeToLatex| ==> c != UnicodeToLatex[j].0
    ensures Keystrokes(a + [c] + b) == Keystrokes(a) + Keystrokes(b)
  {
    KeystrokesAppend(a + [c], b);
    KeystrokesAppend(a, [c]);
    UnknownCharacterDropped(c);
  }

  /** Lower-case 'a'+i is usage 0x04+i unshifted; upper-case 'A'+i the same usage with Shift. */
  lemma LetterKeystrokes(i: nat)
    requires i < 26
    ensures Keystrokes([Offset('a', i)]) == [HidAction(0x04 + i, ModifierNone)]
    ensures Keystrokes([Offset('A', i)]) == [HidAction(0x04 + i, ModifierShift)]
  {
    LookupLetter(i);
    KeystrokesOfMappedText([Offset('a', i)]);
    KeystrokesOfMappedText([Offset('A', i)]);
  }

  /** '1'..'9' are usages 0x1E..0x26 and '0' is 0x27, all unshifted. */
  lemma DigitKeystrokes(i: nat)
    requires i < 10
    ensures Keystrokes([Offset('0', i)]) == [HidAction(if i == 0 then 0x27 else 0x1D + i, ModifierNone)]
  {
    var c := Offset('0', i);
    assert c in Digits && Digits[c] == HidAction(if i == 0 then 0x27 else 0x1D + i, ModifierNone) by {
      if i == 0 {} else if i == 1 {} else if i == 2 {} else if i == 3 {} else if i == 4 {}
      else if i == 5 {} else if i == 6 {} else if i == 7 {} else if i == 8 {} else {}
    }
    KeystrokesOfMappedText([c]);
  }

  /** A table character on its own is typed as its one table entry. */
  lemma MappedCharKeystroke(c: char)
    requires Lookup(c).Some?
    ensures Keystrokes([c]) == [Lookup(c).value]
  {
    KeystrokesOfMappedText([c]);
  }

  /** As the table is written, '^' types the same key as '!', and '&' the same as '*'. */
  lemma SharedKeys(c: char, d: char)
    requires (c, d) == ('^', '!') || (c, d) == ('&', '*')
    ensures Keystrokes([c]) == Keystrokes([d])
    ensures Keystrokes([c]) == [HidAction(if c == '^' then 0x1E else 0x25, ModifierShift)]
  {
    var a := HidAction(if c == '^' then 0x1E else 0x25, ModifierShift);
    assert Lookup(c) == Lookup(d) == Some(a) by {
      if c == '^' { assert Listed['^'] == Listed['!'] == a; } else { assert Listed['&'] == Listed['*'] == a; }
    }
    MappedCharKeystroke(c);
    MappedCharKeystroke(d);
  }

  /** Every character of every replacement text is in the table, so substitution loses nothing. */
  lemma ReplacementsMapped()
    ensures forall i :: 0 <= i < |UnicodeToLatex| ==> AllMapped(UnicodeToLatex[i].1)
  {
    var t := UnicodeToLatex;
    assert forall i, k :: 0 <= i < |t| && 0 <= k < |t[i].1| ==>
      t[i].1[k] == '\\' || 'a' <= t[i].1[k] <= 'z' || 'A' <= t[i].1[k] <= 'Z';
    forall i, k | 0 <= i < |t| && 0 <= k < |t[i].1| ensures Lookup(t[i].1[k]).Some? {
      var ch := t[i].1[k];
      if 'a' <= ch <= 'z' || 'A' <= ch <= 'Z' {
        LookupLetter(0);
      }
    }
  }

  /** The table's first entry for each key is the one `SubstituteChar` picks. */
  lemma {:induction false} SubstituteCharOfKey(table: seq<(char, string)>, i: nat)
    requires i < |table|
    requires forall j :: 0 <= j < i ==> table[j].0 != table[i].0
    ensures SubstituteChar(table, table[i].0) == table[i].1
  {
    if i > 0 {
      assert table[0].0 != table[i].0;
      SubstituteCharOfKey(table[1..], i - 1);
    }
  }

  /** A substitutable symbol is typed exactly as its replacement, e.g. "α" as "\\alpha". */
  lemma SymbolTypedAsReplacement(i: nat)
    requires i < |UnicodeToLatex|
    ensures Keystrokes([UnicodeToLatex[i].0]) == Keystrokes(UnicodeToLatex[i].1)
    ensures |Keystrokes([UnicodeToLatex[i].0])| == |UnicodeToLatex[i].1|
  {
    var t := UnicodeToLatex;
    var key, r := t[i].0, t[i].1;
    assert forall j :: 0 <= j < i ==> t[j].0 != key;
    SubstituteCharOfKey(t, i);
    SubstituteIsPerCharacter([key]);
    assert SubstituteEach(t, [key]) == SubstituteChar(t, key) + SubstituteEach(t, []);
    assert Substitute([key]) == r;
    ReplacementsMapped();
    assert AllMapped(r);
    forall k | 0 <= k < |r| ensures r[k] as int < 128 {
      LookupWellFormed(r[k]);
    }
    AsciiNotSubstituted(r);
    ActionsOfLength(r);
  }
}
