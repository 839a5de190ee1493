/** The Caesar cipher visualizer of Tools/caesar_cipher_visualizer.py without
    its drawing: the character transform, the cycles `_prepare` chains, the
    shift the mapping view recovers, the step navigator and the input rules.
    Letters are the ASCII letters. */
module Caesar {
  import opened Wrappers
  import opened PyStr

  /** The characters drawn as a gap: '.', '-' and '|'. */
  predicate IsSeparator(c: char) { c == '.' || c == '-' || c == '|' }

  predicate IsLetter(c: char) { IsUpper(c) || IsLower(c) }

  /** Position of a letter in its alphabet. */
  function LetterIndex(c: char): (k: int)
    requires IsLetter(c)
    ensures 0 <= k < 26
  {
    if IsUpper(c) then c as int - 'A' as int else c as int - 'a' as int
  }

  /** `chr((ord(c) - ord(base) + shift) % 26 + ord(base))` for the letter's
      own case. */
  function Rotate(c: char, shift: int): (r: char)
    requires IsLetter(c)
    ensures IsUpper(r) == IsUpper(c) && IsLower(r) == IsLower(c)
    ensures LetterIndex(r) == (LetterIndex(c) + shift) % 26
  {
    var base := if IsUpper(c) then 'A' as int else 'a' as int;
    (base + (c as int - base + shift) % 26) as char
  }

  /** What one input character contributes to the output. */
  function Piece(c: char, shift: int, preserve: bool): seq<char>
  {
    if IsSeparator(c) then [' ']
    else if IsLetter(c) then [Rotate(c, shift)]
    else if preserve then [c]
    else []
  }

  /** `caesar_shift(text, shift, preserve)`. */
  function Shifted(text: string, shift: int, preserve: bool): string
  {
    if text == [] then ""
    else Shifted(text[..|text| - 1], shift, preserve) + Piece(text[|text| - 1], shift, preserve)
  }

  /** The character a kept character becomes. */
  function MapChar(c: char, shift: int): char
  {
    if IsSeparator(c) then ' ' else if IsLetter(c) then Rotate(c, shift) else c
  }

  /** `caesar_shift`: one pass over the text, appending to `result`. */
  method CaesarShift(text: string, shift: int, preserve: bool) returns (result: string)
    ensures result == Shifted(text, shift, preserve)
  {
    result := "";
    for i := 0 to |text|
      invariant result == Shifted(text[..i], shift, preserve)
    {
      assert text[..i + 1][..i] == text[..i];
      var ch := text[i];
      if IsSeparator(ch) {
        result := result + [' '];
      } else if IsUpper(ch) {
        var idx := (ch as int - 'A' as int + shift) % 26;
        result := result + [(idx + 'A' as int) as char];
      } else if IsLower(ch) {
        var idx := (ch as int - 'a' as int + shift) % 26;
        result := result + [(idx + 'a' as int) as char];
      } else if preserve {
        result := result + [ch];
      }
    }
    assert text[..|text|] == text;
  }

  // ---------------------------------------------------------------------
  // The transform
  // ---------------------------------------------------------------------

  /** The transform works character by character. */
  lemma {:induction false} ShiftedAppend(a: string, b: string, shift: int, preserve: bool)
    ensures Shifted(a + b, shift, preserve) == Shifted(a, shift, preserve) + Shifted(b, shift, preserve)
    decreases |b|
  {
    if b == [] {
      assert a + b == a;
    } else {
      var b' := b[..|b| - 1];
      assert (a + b)[..|a + b| - 1] == a + b';
      assert (a + b)[|a + b| - 1] == b[|b| - 1];
      ShiftedAppend(a, b', shift, preserve);
    }
  }

  /** A separator becomes a single space, whether or not other characters
      are preserved. */
  lemma SeparatorIsSpace(a: string, c: char, b: string, shift: int, preserve: bool)
    requires IsSeparator(c)
    ensures Shifted(a + [c] + b, shift, preserve) == Shifted(a, shift, preserve) + " " + Shifted(b, shift, preserve)
  {
    ShiftedAppend(a + [c], b, shift, preserve);
    ShiftedAppend(a, [c], shift, preserve);
    assert [c][..0] == [];
  }

  /** The reference for `preserve`: every character mapped in place. */
  function ShiftMap(text: string, shift: int): (r: string)
    ensures |r| == |text|
  {
    seq(|text|, i requires 0 <= i < |text| => MapChar(text[i], shift))
  }

  /** With `preserve` a character becomes exactly its image. */
  lemma PieceIsMap(c: char, shift: int)
    ensures Piece(c, shift, true) == [MapChar(c, shift)]
  {
  }

  /** With `preserve` every character has an image at the same position:
      separators a space, letters rotated within their case, the rest
      themselves. */
  lemma {:induction false} PreservedIsMap(text: string, shift: int)
    ensures Shifted(text, shift, true) == ShiftMap(text, shift)
  {
    if text != [] {
      var t, c := text[..|text| - 1], text[|text| - 1];
      PreservedIsMap(t, shift);
      PieceIsMap(c, shift);
      var m := ShiftMap(text, shift);
      assert m == ShiftMap(t, shift) + [MapChar(c, shift)] by {
        forall i | 0 <= i < |t| ensures m[i] == ShiftMap(t, shift)[i] {
          assert text[i] == t[i];
        }
      }
    }
  }

  /** Without `preserve` only letters and spaces remain, and the output is
      no longer than the input. */
  lemma {:induction false} DroppedOthers(text: string, shift: int)
    ensures |Shifted(text, shift, false)| <= |text|
    ensures forall i :: 0 <= i < |Shifted(text, shift, false)| ==>
      IsLetter(Shifted(text, shift, false)[i]) || Shifted(text, shift, false)[i] == ' '
  {
    if text != [] {
      DroppedOthers(text[..|text| - 1], shift);
    }
  }

  /** Without `preserve` the output is that of the text with its other
      characters removed first. */
  function Kept(text: string): (r: string)
    ensures |r| <= |text|
  {
    if text == [] then ""
    else Kept(text[..|text| - 1]) + (if IsSeparator(text[|text| - 1]) || IsLetter(text[|text| - 1]) then [text[|text| - 1]] else [])
  }

  lemma {:induction false} DroppedIsKept(text: string, shift: int)
    ensures Shifted(text, shift, false) == Shifted(Kept(text), shift, true)
  {
    if text != [] {
      var t, c := text[..|text| - 1], text[|text| - 1];
      DroppedIsKept(t, shift);
      ShiftedAppend(Kept(t), if IsSeparator(c) || IsLetter(c) then [c] else [], shift, true);
      assert [c][..0] == [];
    }
  }

  /** Rotations compose. */
  lemma RotateCompose(c: char, a: int, b: int)
    requires IsLetter(c)
    ensures Rotate(Rotate(c, a), b) == Rotate(c, a + b)
  {
    var k := LetterIndex(c);
    assert LetterIndex(Rotate(Rotate(c, a), b)) == LetterIndex(Rotate(c, a + b)) by {
      ModAdd(k, a, b);
    }
  }

  lemma ModAdd(k: int, a: int, b: int)
    ensures ((k + a) % 26 + b) % 26 == (k + a + b) % 26
  {
    var q := (k + a) / 26;
    assert k + a == 26 * q + (k + a) % 26;
    ModMinusMultiple((k + a) % 26 + b, q);
    assert (k + a) % 26 + b + 26 * q == k + a + b;
  }

  lemma ModMinusMultiple(x: int, q: int)
    ensures (x + 26 * q) % 26 == x % 26
  {
    var r := x % 26;
    var d := x / 26;
    assert x == 26 * d + r;
    assert x + 26 * q == 26 * (d + q) + r;
  }

  /** Two images compose like the shifts. */
  lemma MapCharCompose(c: char, a: int, b: int)
    ensures MapChar(MapChar(c, a), b) == MapChar(c, a + b)
  {
    if IsLetter(c) {
      RotateCompose(c, a, b);
    }
  }

  lemma ShiftMapCompose(text: string, a: int, b: int)
    ensures ShiftMap(ShiftMap(text, a), b) == ShiftMap(text, a + b)
  {
    forall i | 0 <= i < |text| ensures ShiftMap(ShiftMap(text, a), b)[i] == ShiftMap(text, a + b)[i] {
      MapCharCompose(text[i], a, b);
    }
  }

  /** With `preserve`, two passes are one pass by the sum of the shifts. */
  lemma ShiftedCompose(text: string, a: int, b: int)
    ensures Shifted(Shifted(text, a, true), b, true) == Shifted(text, a + b, true)
  {
    var once := Shifted(text, a, true);
    assert once == ShiftMap(text, a) by { PreservedIsMap(text, a); }
    assert Shifted(once, b, true) == ShiftMap(once, b) by { PreservedIsMap(once, b); }
    assert Shifted(text, a + b, true) == ShiftMap(text, a + b) by { PreservedIsMap(text, a + b); }
    assert ShiftMap(once, b) == ShiftMap(text, a + b) by { ShiftMapCompose(text, a, b); }
  }

  /** A shift by a multiple of 26 maps a text without separators to
      itself. */
  lemma ShiftMapIdentity(text: string, shift: int)
    requires shift % 26 == 0
    requires forall i :: 0 <= i < |text| ==> !IsSeparator(text[i])
    ensures ShiftMap(text, shift) == text
  {
    forall i | 0 <= i < |text| ensures ShiftMap(text, shift)[i] == text[i] {
      var c := text[i];
      if IsLetter(c) {
        var r := Rotate(c, shift);
        ModMinusMultiple(LetterIndex(c), shift / 26);
        assert LetterIndex(r) == LetterIndex(c);
      }
    }
  }

  /** A shift by a multiple of 26 changes nothing in a text without
      separators. */
  lemma ShiftedIdentity(text: string, shift: int)
    requires shift % 26 == 0
    requires forall i :: 0 <= i < |text| ==> !IsSeparator(text[i])
    ensures Shifted(text, shift, true) == text
  {
    PreservedIsMap(text, shift);
    ShiftMapIdentity(text, shift);
  }

  /** Decrypting with the negated shift undoes encrypting, for text
      without separators and with `preserve`. */
  lemma DecryptUndoesEncrypt(text: string, shift: int)
    requires forall i :: 0 <= i < |text| ==> !IsSeparator(text[i])
    ensures Shifted(Shifted(text, shift, true), -shift, true) == text
  {
    var once := Shifted(text, shift, true);
    assert once == ShiftMap(text, shift) by { PreservedIsMap(text, shift); }
    assert Shifted(once, -shift, true) == ShiftMap(once, -shift) by { PreservedIsMap(once, -shift); }
    UndoShift(text, once, shift);
  }

  /** The mapping by `-shift` undoes the mapping by `shift`. */
  lemma UndoShift(text: string, once: string, shift: int)
    requires forall i :: 0 <= i < |text| ==> !IsSeparator(text[i])
    requires once == ShiftMap(text, shift)
    ensures ShiftMap(once, -shift) == text
  {
    assert ShiftMap(once, -shift) == ShiftMap(text, shift + -shift) by { ShiftMapCompose(text, shift, -shift); }
    assert ShiftMap(text, shift + -shift) == text by { ShiftMapIdentity(text, shift + -shift); }
  }

  /** A separator is not undone: it comes back as a space. */
  lemma SeparatorNotRestored(shift: int)
    ensures Shifted(Shifted(".", shift, true), -shift, true) == " "
  {
    assert "."[..0] == "";
    assert " "[..0] == "";
  }

  // ---------------------------------------------------------------------
  // The cycles of `_prepare`
  // ---------------------------------------------------------------------

  /** The input of cycle `k` (0-based): the text, shifted `k` times. */
  function CycleInput(text: string, shift: int, preserve: bool, k: nat): string
  {
    if k == 0 then text else Shifted(CycleInput(text, shift, preserve, k - 1), shift, preserve)
  }

  /** `precomputed` after `_prepare`: `n` pairs (input, output). */
  function Cycles(text: string, shift: int, preserve: bool, n: nat): (r: seq<(string, string)>)
    ensures |r| == n
  {
    if n == 0 then []
    else
      Cycles(text, shift, preserve, n - 1)
        + [(CycleInput(text, shift, preserve, n - 1), CycleInput(text, shift, preserve, n))]
  }

  /** Entry 0 reads the text, each entry reads the previous output, and
      each output is the transform of its input. */
  lemma {:induction false} CyclesChain(text: string, shift: int, preserve: bool, n: nat)
    ensures var c := Cycles(text, shift, preserve, n);
      (n > 0 ==> c[0].0 == text)
      && (forall k :: 0 < k < n ==> c[k].0 == c[k - 1].1)
      && (forall k :: 0 <= k < n ==> c[k].1 == Shifted(c[k].0, shift, preserve))
  {
    var c := Cycles(text, shift, preserve, n);
    if n > 0 {
      CyclesEntry(text, shift, preserve, n, 0);
    }
    forall k | 0 < k < n ensures c[k].0 == c[k - 1].1 {
      CyclesEntry(text, shift, preserve, n, k);
      CyclesEntry(text, shift, preserve, n, k - 1);
    }
    forall k | 0 <= k < n ensures c[k].1 == Shifted(c[k].0, shift, preserve) {
      CyclesEntry(text, shift, preserve, n, k);
    }
  }

  /** Entry `k` is the input of cycle `k` and its output. */
  lemma {:induction false} CyclesEntry(text: string, shift: int, preserve: bool, n: nat, k: nat)
    requires k < n
    ensures Cycles(text, shift, preserve, n)[k]
      == (CycleInput(text, shift, preserve, k), CycleInput(text, shift, preserve, k + 1))
  {
    var prev := Cycles(text, shift, preserve, n - 1);
    var last := (CycleInput(text, shift, preserve, n - 1), CycleInput(text, shift, preserve, n));
    assert Cycles(text, shift, preserve, n) == prev + [last];
    if k < n - 1 {
      CyclesEntry(text, shift, preserve, n - 1, k);
      assert (prev + [last])[k] == prev[k];
    } else {
      assert (prev + [last])[n - 1] == last;
    }
  }

  /** `k * shift`, as `k` repeated additions. */
  function Times(k: nat, shift: int): int
  {
    if k == 0 then 0 else Times(k - 1, shift) + shift
  }

  lemma {:induction false} TimesIsProduct(k: nat, shift: int)
    ensures Times(k, shift) == k * shift
  {
    if k > 0 {
      TimesIsProduct(k - 1, shift);
      assert (k - 1) * shift + shift == k * shift;
    }
  }

  lemma {:induction false} TimesNegated(k: nat, shift: int)
    ensures Times(k, -shift) == -Times(k, shift)
  {
    if k > 0 {
      TimesNegated(k - 1, shift);
    }
  }

  /** With `preserve`, the output of cycle `k - 1` (the input of cycle
      `k`) is the text shifted by `k * shift`. */
  lemma CycleOutputShift(text: string, shift: int, k: nat)
    requires k >= 1
    ensures CycleInput(text, shift, true, k) == Shifted(text, k * shift, true)
  {
    CycleOutputTimes(text, shift, k);
    TimesIsProduct(k, shift);
    PreservedIsMap(text, k * shift);
  }

  lemma {:induction false} CycleOutputTimes(text: string, shift: int, k: nat)
    requires k >= 1
    ensures CycleInput(text, shift, true, k) == ShiftMap(text, Times(k, shift))
  {
    if k == 1 {
      assert CycleInput(text, shift, true, 1) == ShiftMap(text, shift) by { PreservedIsMap(text, shift); }
      assert Times(1, shift) == shift;
    } else {
      CycleOutputTimes(text, shift, k - 1);
      CycleOutputNext(text, shift, CycleInput(text, shift, true, k - 1), k);
    }
  }

  /** One more cycle adds one more `shift` to the total. */
  lemma CycleOutputNext(text: string, shift: int, prev: string, k: nat)
    requires k >= 1 && prev == CycleInput(text, shift, true, k - 1)
    requires prev == ShiftMap(text, Times(k - 1, shift))
    ensures CycleInput(text, shift, true, k) == ShiftMap(text, Times(k, shift))
  {
    assert CycleInput(text, shift, true, k) == Shifted(prev, shift, true);
    ShiftAgain(text, prev, Times(k - 1, shift), shift, Times(k, shift));
  }

  /** Shifting a shifted text adds the shifts. */
  lemma ShiftAgain(text: string, prev: string, t: int, shift: int, total: int)
    requires prev == ShiftMap(text, t) && total == t + shift
    ensures Shifted(prev, shift, true) == ShiftMap(text, total)
  {
    PreservedIsMap(prev, shift);
    ShiftMapCompose(text, t, shift);
  }

  /** Decrypting for as many cycles, from the final output, gives back the
      text (with `preserve`, without separators). */
  lemma CyclesRoundTrip(text: string, shift: int, n: nat)
    requires n > 0
    requires forall i :: 0 <= i < |text| ==> !IsSeparator(text[i])
    ensures var encrypted := Cycles(text, shift, true, n)[n - 1].1;
      Cycles(encrypted, -shift, true, n)[n - 1].1 == text
  {
    var encrypted := CycleInput(text, shift, true, n);
    assert Cycles(text, shift, true, n)[n - 1].1 == encrypted by { CyclesLast(text, shift, true, n); }
    assert Cycles(encrypted, -shift, true, n)[n - 1].1 == CycleInput(encrypted, -shift, true, n) by {
      CyclesLast(encrypted, -shift, true, n);
    }
    assert encrypted == ShiftMap(text, Times(n, shift)) by { CycleOutputTimes(text, shift, n); }
    UndoCycles(text, encrypted, shift, n);
  }

  /** `n` cycles by `-shift` undo a shift by `n * shift`. */
  lemma UndoCycles(text: string, encrypted: string, shift: int, n: nat)
    requires n > 0
    requires forall i :: 0 <= i < |text| ==> !IsSeparator(text[i])
    requires encrypted == ShiftMap(text, Times(n, shift))
    ensures CycleInput(encrypted, -shift, true, n) == text
  {
    CycleOutputTimes(encrypted, -shift, n);
    MapUndo(text, shift, n);
  }

  /** The mapping by `n * -shift` undoes the mapping by `n * shift`. */
  lemma MapUndo(text: string, shift: int, n: nat)
    requires forall i :: 0 <= i < |text| ==> !IsSeparator(text[i])
    ensures ShiftMap(ShiftMap(text, Times(n, shift)), Times(n, -shift)) == text
  {
    var t := Times(n, shift);
    var u := Times(n, -shift);
    assert ShiftMap(ShiftMap(text, t), u) == ShiftMap(text, t + u) by { ShiftMapCompose(text, t, u); }
    assert t + u == 0 by { TimesNegated(n, shift); }
    assert ShiftMap(text, t + u) == text by { ShiftMapIdentity(text, t + u); }
  }

  /** The last entry's output is the text shifted `n` times. */
  lemma CyclesLast(text: string, shift: int, preserve: bool, n: nat)
    requires n > 0
    ensures Cycles(text, shift, preserve, n)[n - 1].1 == CycleInput(text, shift, preserve, n)
  {
  }

  // ---------------------------------------------------------------------
  // The shift shown by the mapping view
  // ---------------------------------------------------------------------

  /** `(ord(outp[0]) - ord(inp[0])) % 26`, None where indexing raises. */
  function MappingShift(inp: string, outp: string): Option<int>
  {
    if inp == [] || outp == [] then None
    else Some((outp[0] as int - inp[0] as int) % 26)
  }

  /** The animated view's `... if inp else 0`. */
  function AnimatedShift(inp: string, outp: string): Option<int>
  {
    if inp == [] then Some(0) else MappingShift(inp, outp)
  }

  /** When the input starts with a letter, the view recovers the shift
      modulo 26, whatever `preserve` is. */
  lemma RecoveredShift(inp: string, shift: int, preserve: bool)
    requires inp != [] && IsLetter(inp[0])
    ensures MappingShift(inp, Shifted(inp, shift, preserve)) == Some(shift % 26)
    ensures AnimatedShift(inp, Shifted(inp, shift, preserve)) == Some(shift % 26)
  {
    var c := inp[0];
    ShiftedAppend([c], inp[1..], shift, preserve);
    assert [c] + inp[1..] == inp;
    assert [c][..0] == [];
    var r := Rotate(c, shift);
    var k := LetterIndex(c);
    var q := (k + shift) / 26;
    assert k + shift == 26 * q + (k + shift) % 26;
    assert r as int - c as int == (k + shift) % 26 - k;
    ModMinusMultiple(r as int - c as int, q);
  }

  // ---------------------------------------------------------------------
  // Step navigation
  // ---------------------------------------------------------------------

  /** A reachable step: a letter of a cycle, or just past the last cycle. */
  predicate ValidStep(cycles: seq<(string, string)>, step: (nat, int)) {
    (step.0 < |cycles| && 0 <= step.1 < |cycles[step.0].0|) || (step.0 == |cycles| && step.1 == 0)
  }

  /** `next_step`: one letter on, or to the next cycle after the last
      letter; nothing once past the last cycle. */
  function NextOf(cycles: seq<(string, string)>, step: (nat, int)): (nat, int)
  {
    var (ci, li) := step;
    if ci < |cycles| then
      if li < |cycles[ci].0| - 1 then (ci, li + 1) else (ci + 1, 0)
    else step
  }

  /** `prev_step`: one letter back, or to the last letter of the previous
      cycle; None where `precomputed[ci-1]` raises. */
  function PrevOf(cycles: seq<(string, string)>, step: (nat, int)): Option<(nat, int)>
  {
    var (ci, li) := step;
    if li > 0 then Some((ci, li - 1))
    else if ci > 0 then
      if ci - 1 < |cycles| then Some((ci - 1, |cycles[ci - 1].0| - 1)) else None
    else Some(step)
  }

  /** Past the last cycle, `next_step` changes nothing. */
  lemma NextAtEnd(cycles: seq<(string, string)>, li: int)
    ensures NextOf(cycles, (|cycles|, li)) == (|cycles|, li)
  {
  }

  /** At the start, `prev_step` stays at the start. */
  lemma PrevAtStart(cycles: seq<(string, string)>)
    ensures PrevOf(cycles, (0, 0)) == Some((0, 0))
  {
  }

  predicate NonEmptyInputs(cycles: seq<(string, string)>) {
    forall k :: 0 <= k < |cycles| ==> cycles[k].0 != []
  }

  /** Navigation keeps the step reachable when no cycle input is empty. */
  lemma StepsStayValid(cycles: seq<(string, string)>, step: (nat, int))
    requires NonEmptyInputs(cycles) && ValidStep(cycles, step)
    ensures ValidStep(cycles, NextOf(cycles, step))
    ensures PrevOf(cycles, step).Some? && ValidStep(cycles, PrevOf(cycles, step).value)
  {
  }

  /** `prev_step` undoes `next_step` wherever `next_step` moves. */
  lemma PrevUndoesNext(cycles: seq<(string, string)>, step: (nat, int))
    requires NonEmptyInputs(cycles) && ValidStep(cycles, step) && step.0 < |cycles|
    ensures PrevOf(cycles, NextOf(cycles, step)) == Some(step)
  {
  }

  /** `next_step` undoes `prev_step` everywhere but the start. */
  lemma NextUndoesPrev(cycles: seq<(string, string)>, step: (nat, int))
    requires NonEmptyInputs(cycles) && ValidStep(cycles, step) && step != (0, 0)
    ensures PrevOf(cycles, step).Some? && NextOf(cycles, PrevOf(cycles, step).value) == step
  {
  }

  /** Going back from the start of a cycle whose predecessor has empty
      input lands on letter -1. */
  lemma PrevIntoEmptyCycle(cycles: seq<(string, string)>, ci: nat)
    requires 0 < ci <= |cycles| && cycles[ci - 1].0 == []
    ensures PrevOf(cycles, (ci, 0)) == Some((ci - 1, -1))
  {
  }

  /** The loop of `_prepare`: each cycle's output is the next one's input. */
  method ChainCycles(input: string, shift: int, preserve: bool, n: nat) returns (chain: seq<(string, string)>)
    ensures chain == Cycles(input, shift, preserve, n)
  {
    var txt := input;
    chain := [];
    for k := 0 to n
      invariant chain == Cycles(input, shift, preserve, k)
      invariant txt == CycleInput(input, shift, preserve, k)
    {
      var out := CaesarShift(txt, shift, preserve);
      chain := chain + [(txt, out)];
      txt := out;
    }
  }

  // ---------------------------------------------------------------------
  // The window's state
  // ---------------------------------------------------------------------

  /** The fields of the visualizer the logic reads and writes. */
  class Visualizer {
    var precomputed: seq<(string, string)>
    var stepIndex: (nat, int)

    constructor()
      ensures precomputed == [] && stepIndex == (0, 0)
    {
      precomputed := [];
      stepIndex := (0, 0);
    }

    /** `_prepare(action)`: parse the shift, negate it to decrypt, and chain
        `cycles` transforms. A shift that `int()` rejects changes nothing;
        the range 1..25 is not checked here. Step mode restarts at (0, 0). */
    method Prepare(input: string, shiftText: string, encrypt: bool, preserve: bool,
                   cycles: int, animate: bool) returns (ok: bool)
      modifies this
      ensures ok <==> ParseInt(shiftText).Some?
      ensures !ok ==> precomputed == old(precomputed) && stepIndex == old(stepIndex)
      ensures ok ==>
        var s := ParseInt(shiftText).value;
        precomputed == Cycles(input, if encrypt then s else -s, preserve, if cycles < 0 then 0 else cycles)
        && stepIndex == if animate then old(stepIndex) else (0, 0)
    {
      var parsed := ParseInt(shiftText);
      if parsed.None? {
        return false;
      }
      var shift := if encrypt then parsed.value else -parsed.value;
      var n: nat := if cycles < 0 then 0 else cycles;
      precomputed := ChainCycles(input, shift, preserve, n);
      if !animate {
        stepIndex := (0, 0);
      }
      return true;
    }

    /** `next_step`. */
    method NextStep()
      modifies this
      ensures precomputed == old(precomputed)
      ensures stepIndex == NextOf(precomputed, old(stepIndex))
    {
      var (ci, li) := stepIndex;
      if ci < |precomputed| {
        if li < |precomputed[ci].0| - 1 {
          stepIndex := (ci, li + 1);
        } else {
          stepIndex := (ci + 1, 0);
        }
      }
    }

    /** `prev_step`: `failed` when `precomputed[ci-1]` raises IndexError,
        which leaves the step as it was. */
    method PrevStep() returns (failed: bool)
      modifies this
      ensures precomputed == old(precomputed)
      ensures failed <==> PrevOf(precomputed, old(stepIndex)).None?
      ensures stepIndex == if failed then old(stepIndex) else PrevOf(precomputed, old(stepIndex)).value
    {
      var (ci, li) := stepIndex;
      if li > 0 {
        stepIndex := (ci, li - 1);
      } else if ci > 0 {
        if ci - 1 >= |precomputed| {
          return true;
        }
        var prevLen := |precomputed[ci - 1].0|;
        stepIndex := (ci - 1, prevLen - 1);
      }
      return false;
    }
  }

  // ---------------------------------------------------------------------
  // Input rules
  // ---------------------------------------------------------------------

  /** `validate_input`: an entry accepts a proposed text of at most 50
      characters. */
  predicate AcceptsInput(proposed: string) {
    |proposed| <= 50
  }

  /** Deleting characters is never refused. */
  lemma AcceptsPrefix(proposed: string, n: nat)
    requires AcceptsInput(proposed) && n <= |proposed|
    ensures AcceptsInput(proposed[..n])
  {
  }

  /** The shift rule of `validate_widgets`: digits only, value 1 to 25. */
  predicate ValidShift(s: string) {
    IsDigits(s) && 1 <= DigitsValue(s) <= 25
  }

  /** The state `validate_widgets` computes: 'normal' for a valid shift
      and some text, 'disabled' otherwise. It assigns that state only to
      buttons labelled Encrypt or Decrypt in the window's first frame, and
      that frame holds none, so in this window the rule reaches no button. */
  predicate WidgetsNormal(shift: string, input: string) {
    ValidShift(shift) && input != []
  }

  /** A number written out is a valid shift exactly when it is 1 to 25. */
  lemma ValidShiftOfNumber(n: nat)
    ensures ValidShift(NatToString(n)) <==> 1 <= n <= 25
  {
    NatToStringValue(n);
  }

  /** A shift the rule accepts is one `_prepare` parses, to the same value. */
  lemma ValidShiftParses(s: string)
    requires ValidShift(s)
    ensures ParseInt(s) == Some(DigitsValue(s) as int)
  {
    StripTrimmed(s);
  }

  /** `_prepare` itself accepts shifts the rule rejects. */
  lemma PrepareAcceptsInvalidShift()
    ensures !ValidShift("0") && ParseInt("0") == Some(0)
  {
    assert "0"[..0] == "";
    ValidShiftParses("1");
    StripTrimmed("0");
  }
}
