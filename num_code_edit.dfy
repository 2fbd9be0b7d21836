/** The numeric code input of the web pages: a row of boxes, one digit
    each, whose joined contents form the code. Typing spreads the digits
    before the caret over the boxes from the current one on; backspace at
    the start of a box clears the box before it. */
module NumCodeEdit {
  import opened Wrappers
  import opened TextEdit

  const DEFAULT_CODE_LENGTH := 6

  /** The code the boxes hold: their joined values when these have exactly
      the code length, otherwise null. */
  function CodeOf(boxes: seq<string>, codeLength: int): (r: Option<string>)
    ensures r.Some? <==> |Concat(boxes)| == codeLength
    ensures r.Some? ==> r.value == Concat(boxes)
  {
    var code := Concat(boxes);
    if |code| == codeLength then Some(code) else None
  }

  /** Every box holds at most one digit. */
  predicate DigitBoxes(boxes: seq<string>) {
    forall k :: 0 <= k < |boxes| ==> |boxes[k]| <= 1 && AllDigits(boxes[k])
  }

  predicate AllFilled(boxes: seq<string>) {
    forall k :: 0 <= k < |boxes| ==> boxes[k] != ""
  }

  lemma {:induction false} ConcatDigitBoxes(boxes: seq<string>)
    requires DigitBoxes(boxes)
    ensures AllDigits(Concat(boxes)) && |Concat(boxes)| <= |boxes|
    ensures |Concat(boxes)| == |boxes| <==> AllFilled(boxes)
    decreases |boxes|
  {
    if |boxes| > 0 {
      var init := boxes[..|boxes| - 1];
      assert DigitBoxes(init) by {
        forall k | 0 <= k < |init| ensures |init[k]| <= 1 && AllDigits(init[k]) {
          assert init[k] == boxes[k];
        }
      }
      ConcatDigitBoxes(init);
      var c := Concat(init) + boxes[|boxes| - 1];
      assert AllDigits(c) by {
        forall k | 0 <= k < |c| ensures IsDigit(c[k]) {
          if k < |Concat(init)| {
            assert c[k] == Concat(init)[k];
          } else {
            assert c[k] == boxes[|boxes| - 1][k - |Concat(init)|];
          }
        }
      }
      if AllFilled(boxes) {
        assert AllFilled(init) by {
          forall k | 0 <= k < |init| ensures init[k] != "" {
            assert init[k] == boxes[k];
          }
        }
      }
      if |c| == |boxes| {
        forall k | 0 <= k < |boxes| ensures boxes[k] != "" {
          if k < |init| {
            assert init[k] == boxes[k];
          }
        }
      }
    }
  }

  /** With one digit or none per box and as many boxes as the code is long,
      the code exists exactly when no box is empty, and then it is made of
      digits only. */
  lemma CodeExactlyWhenFilled(boxes: seq<string>, codeLength: int)
    requires DigitBoxes(boxes) && |boxes| == codeLength
    ensures CodeOf(boxes, codeLength).Some? <==> AllFilled(boxes)
    ensures CodeOf(boxes, codeLength).Some? ==> AllDigits(CodeOf(boxes, codeLength).value)
  {
    ConcatDigitBoxes(boxes);
  }

  function Min(a: int, b: int): int {
    if a <= b then a else b
  }

  /** The boxes after spreading `digits` from box `i` on: box `i + j` holds
      the `j`th digit as long as there are digits and boxes, and every other
      box keeps its value. */
  predicate SpreadFrom(before: seq<string>, after: seq<string>, i: nat, digits: string, codeLength: int) {
    |after| == |before| &&
    forall k :: 0 <= k < |after| ==>
      after[k] == (if i <= k < Min(i + |digits|, codeLength) then [digits[k - i]] else before[k])
  }

  /** The digits before the caret in the box that was typed into. */
  function TypedDigits(typed: string, caret: nat): string
    requires caret <= |typed|
  {
    Digits(typed[..caret])
  }

  /** The widget: its code length, its boxes, which box has the focus and
      with what selection, whether an enter listener is set, and the codes
      passed to that listener so far. */
  class NumCodeEdit {
    var codeLength: int
    var boxes: seq<string>
    var focused: Option<nat>
    var selection: (nat, nat)
    var hasOnEnter: bool
    var entered: seq<string>

    /** Rendered for the current code length, one digit or none per box. */
    predicate Valid()
      reads this
    {
      |boxes| == codeLength && DigitBoxes(boxes)
    }

    function Code(): (r: Option<string>)
      reads this
      ensures r == CodeOf(boxes, codeLength)
    {
      CodeOf(boxes, codeLength)
    }

    constructor ()
      ensures codeLength == DEFAULT_CODE_LENGTH && boxes == [] && focused.None?
      ensures !hasOnEnter && entered == []
    {
      codeLength := DEFAULT_CODE_LENGTH;
      boxes := [];
      focused := None;
      selection := (0, 0);
      hasOnEnter := false;
      entered := [];
    }

    method SetCodeLength(value: int)
      modifies this
      ensures codeLength == value
      ensures boxes == old(boxes) && focused == old(focused) && selection == old(selection)
      ensures hasOnEnter == old(hasOnEnter) && entered == old(entered)
    {
      codeLength := value;
    }

    method SetOnEnter(present: bool)
      modifies this
      ensures hasOnEnter == present
      ensures codeLength == old(codeLength) && boxes == old(boxes) && focused == old(focused)
      ensures selection == old(selection) && entered == old(entered)
    {
      hasOnEnter := present;
    }

    /** `render`: one empty box per digit of the code. */
    method Render()
      modifies this
      ensures |boxes| == |old(boxes)| + (if codeLength < 0 then 0 else codeLength)
      ensures boxes[..|old(boxes)|] == old(boxes)
      ensures forall k :: |old(boxes)| <= k < |boxes| ==> boxes[k] == ""
      ensures old(boxes) == [] ==> Valid() || codeLength < 0
      ensures codeLength == old(codeLength) && focused == old(focused) && selection == old(selection)
      ensures hasOnEnter == old(hasOnEnter) && entered == old(entered)
    {
      var i := 0;
      while i < codeLength
        invariant 0 <= i <= (if codeLength < 0 then 0 else codeLength)
        invariant |boxes| == |old(boxes)| + i
        invariant boxes[..|old(boxes)|] == old(boxes)
        invariant forall k :: |old(boxes)| <= k < |boxes| ==> boxes[k] == ""
        invariant codeLength == old(codeLength) && focused == old(focused) && selection == old(selection)
        invariant hasOnEnter == old(hasOnEnter) && entered == old(entered)
      {
        boxes := boxes + [""];
        i := i + 1;
      }
    }

    /** The loop of `_onInput` that writes one digit per box from box `i`
        on; it returns the index of the first box it did not write. */
    method SpreadDigits(i: nat, val: string) returns (inputIndex: nat)
      requires Valid() && i < codeLength && AllDigits(val)
      modifies this
      ensures inputIndex == Min(i + |val|, codeLength)
      ensures SpreadFrom(old(boxes), boxes, i, val, codeLength)
      ensures Valid()
      ensures codeLength == old(codeLength) && focused == old(focused) && selection == old(selection)
      ensures hasOnEnter == old(hasOnEnter) && entered == old(entered)
    {
      inputIndex := i;
      var rest := val;
      while inputIndex < codeLength && |rest| > 0
        invariant i <= inputIndex <= Min(i + |val|, codeLength)
        invariant rest == val[inputIndex - i..]
        invariant |boxes| == codeLength == |old(boxes)| && DigitBoxes(boxes)
        invariant forall k :: 0 <= k < |boxes| ==>
                    boxes[k] == (if i <= k < inputIndex then [val[k - i]] else old(boxes)[k])
        invariant codeLength == old(codeLength) && focused == old(focused) && selection == old(selection)
        invariant hasOnEnter == old(hasOnEnter) && entered == old(entered)
      {
        boxes := boxes[inputIndex := rest[..1]];
        rest := rest[1..];
        inputIndex := inputIndex + 1;
      }
    }

    /** `_onInput` as written: box `i` was typed into and now holds `typed`,
        with the caret at `caret`. When the digits reach the last box the
        code is read and its length taken even when it is null, which
        throws; `threw` tells whether it did. */
    method OnInputAsWritten(i: nat, typed: string, caret: nat) returns (threw: bool)
      requires Valid() && i < codeLength && caret <= |typed|
      modifies this
      ensures Valid()
      ensures var val := TypedDigits(typed, caret);
              if |val| == 0 then
                boxes == old(boxes)[i := ""] && entered == old(entered) && !threw
              else
                SpreadFrom(old(boxes), boxes, i, val, codeLength) &&
                (threw <==> i + |val| >= codeLength && hasOnEnter && Code().None?) &&
                entered == old(entered) + (if i + |val| >= codeLength && hasOnEnter && Code().Some? then [Code().value] else [])
      ensures codeLength == old(codeLength) && hasOnEnter == old(hasOnEnter)
    {
      var val := Digits(typed[..caret]);
      threw := false;
      if |val| == 0 {
        boxes := boxes[i := val];
        if i > 0 {
          focused := Some(i - 1);
          selection := (|boxes[i - 1]|, |boxes[i - 1]|);
        }
      } else {
        var inputIndex := SpreadDigits(i, val);
        if inputIndex < codeLength {
          focused := Some(inputIndex);
          selection := (0, 0);
        } else {
          focused := Some(codeLength - 1);
          selection := (1, 1);
          var code := Code();
          if hasOnEnter {
            if code.None? {
              threw := true;
            } else if |code.value| == codeLength {
              entered := entered + [code.value];
            }
          }
        }
      }
    }

    /** `_onInput` with the length check made safe: the enter listener is
        called, with the code, exactly when the digits reach the last box
        and every box is filled. */
    method OnInput(i: nat, typed: string, caret: nat)
      requires Valid() && i < codeLength && caret <= |typed|
      modifies this
      ensures Valid()
      ensures var val := TypedDigits(typed, caret);
              if |val| == 0 then
                boxes == old(boxes)[i := ""] && entered == old(entered) &&
                (i > 0 ==> focused == Some(i - 1) && selection == (|boxes[i - 1]|, |boxes[i - 1]|)) &&
                (i == 0 ==> focused == old(focused) && selection == old(selection))
              else
                SpreadFrom(old(boxes), boxes, i, val, codeLength) &&
                (i + |val| < codeLength ==>
                   focused == Some(i + |val|) && selection == (0, 0) && entered == old(entered)) &&
                (i + |val| >= codeLength ==>
                   (focused == Some(codeLength - 1) && selection == (1, 1) &&
                    entered == old(entered) + (if hasOnEnter && AllFilled(boxes) then [Concat(boxes)] else [])))
      ensures codeLength == old(codeLength) && hasOnEnter == old(hasOnEnter)
    {
      var val := Digits(typed[..caret]);
      if |val| == 0 {
        boxes := boxes[i := val];
        if i > 0 {
          focused := Some(i - 1);
          selection := (|boxes[i - 1]|, |boxes[i - 1]|);
        }
      } else {
        var inputIndex := SpreadDigits(i, val);
        if inputIndex < codeLength {
          focused := Some(inputIndex);
          selection := (0, 0);
        } else {
          focused := Some(codeLength - 1);
          selection := (1, 1);
          var code := Code();
          CodeExactlyWhenFilled(boxes, codeLength);
          if hasOnEnter && code.Some? {
            entered := entered + [code.value];
          }
        }
      }
    }

    /** `_onKeyBackspace`: with the caret at the start of box `i > 0`, the
        box before it is cleared and gets the focus; otherwise nothing
        changes. */
    method OnKeyBackspace(i: nat, selectionStart: nat, selectionEnd: nat)
      requires Valid() && i < codeLength
      modifies this
      ensures Valid()
      ensures selectionStart == 0 && selectionEnd == 0 && i > 0 ==>
                boxes == old(boxes)[i - 1 := ""] && focused == Some(i - 1)
      ensures !(selectionStart == 0 && selectionEnd == 0 && i > 0) ==>
                boxes == old(boxes) && focused == old(focused)
      ensures codeLength == old(codeLength) && selection == old(selection)
      ensures hasOnEnter == old(hasOnEnter) && entered == old(entered)
    {
      if selectionStart == 0 && selectionEnd == 0 && i > 0 {
        boxes := boxes[i - 1 := ""];
        focused := Some(i - 1);
      }
    }
  }

  /** Every code passed to the enter listener has exactly as many digits as
      the code is long. */
  lemma EnteredCodeIsDigits(boxes: seq<string>, codeLength: int)
    requires DigitBoxes(boxes) && |boxes| == codeLength && AllFilled(boxes)
    ensures AllDigits(Concat(boxes)) && |Concat(boxes)| == codeLength
  {
    ConcatDigitBoxes(boxes);
  }

  /** Typing the digits of a whole code into the first box fills every box,
      so the code is complete. */
  lemma FullCodeFromFirstBox(before: seq<string>, after: seq<string>, digits: string, codeLength: int)
    requires |before| == codeLength && |digits| >= codeLength
    requires SpreadFrom(before, after, 0, digits, codeLength)
    ensures AllFilled(after)
  {
    forall k | 0 <= k < |after| ensures after[k] != "" {
      assert after[k] == [digits[k]];
    }
  }

  /** When the digits reach the last box while an earlier box is empty, the
      code is null; the listener check as written then takes its length. */
  lemma EmptyEarlierBoxLeavesNoCode(before: seq<string>, after: seq<string>, i: nat, digits: string, codeLength: int, e: nat)
    requires DigitBoxes(before) && |before| == codeLength && e < i < codeLength
    requires before[e] == "" && i + |digits| >= codeLength && AllDigits(digits)
    requires SpreadFrom(before, after, i, digits, codeLength)
    ensures DigitBoxes(after)
    ensures CodeOf(after, codeLength).None?
  {
    assert after[e] == "";
    assert DigitBoxes(after) by {
      forall k | 0 <= k < |after| ensures |after[k]| <= 1 && AllDigits(after[k]) {
        if i <= k < Min(i + |digits|, codeLength) {
          assert after[k] == [digits[k - i]];
          assert IsDigit(digits[k - i]);
        }
      }
    }
    CodeExactlyWhenFilled(after, codeLength);
  }

  /** A concrete case: six empty boxes, and a digit typed into the last one
      with an enter listener set. The digits reach the last box and the code
      is null, so the listener check as written throws. */
  lemma TypingIntoLastBoxFirst()
    ensures var before := ["", "", "", "", "", ""];
            var after := before[5 := "7"];
            TypedDigits("7", 1) == "7" &&
            SpreadFrom(before, after, 5, "7", DEFAULT_CODE_LENGTH) &&
            5 + |TypedDigits("7", 1)| >= DEFAULT_CODE_LENGTH &&
            CodeOf(after, DEFAULT_CODE_LENGTH).None?
  {
    var before := ["", "", "", "", "", ""];
    var after := before[5 := "7"];
    assert Digits("7"[..1]) == Digits("") + "7";
    assert DigitBoxes(before);
    EmptyEarlierBoxLeavesNoCode(before, after, 5, "7", DEFAULT_CODE_LENGTH, 0);
  }
}
