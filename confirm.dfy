/** `confirm` in app/commands.py: the console answer is affirmative when,
    lowercased, it is `y` or `yes`. The answer is passed in; `input()` itself
    is in the Host class (Commands.Host.Ask). */
module Confirmation {

  /** `str.lower()` on ASCII letters. No other character lowercases to an
      ASCII letter, so keeping them as they are cannot change whether an
      answer is affirmative. */
  function LowerChar(c: char): (l: char)
    ensures 'A' <= c <= 'Z' ==> l as int == c as int + 32
    ensures !('A' <= c <= 'Z') ==> l == c
  {
    if 'A' <= c <= 'Z' then (c as int + 32) as char else c
  }

  function Lower(s: string): (r: string)
    ensures |r| == |s|
    ensures forall i :: 0 <= i < |s| ==> r[i] == LowerChar(s[i])
  {
    if s == [] then [] else [LowerChar(s[0])] + Lower(s[1..])
  }

  /** The answers `confirm` takes as a yes, character by character: `y`, or
      `y`, `e`, `s`, each in either case. */
  predicate IsYes(answer: string)
  {
    || (|answer| == 1 && answer[0] in "yY")
    || (|answer| == 3 && answer[0] in "yY" && answer[1] in "eE" && answer[2] in "sS")
  }

  function Confirm(answer: string): (yes: bool)
    ensures yes <==> IsYes(answer)
  {
    AffirmativeAnswers(answer);
    Lower(answer) in {"y", "yes"}
  }

  lemma LowerIs(c: char, l: char)
    requires l in "yes"
    ensures LowerChar(c) == l <==> c == l || c as int == l as int - 32
  {
  }

  lemma AffirmativeAnswers(answer: string)
    ensures Lower(answer) in {"y", "yes"} <==> IsYes(answer)
  {
    var l := Lower(answer);
    if |answer| == 1 {
      LowerIs(answer[0], 'y');
      assert l == "y" <==> l[0] == 'y';
    } else if |answer| == 3 {
      LowerIs(answer[0], 'y');
      LowerIs(answer[1], 'e');
      LowerIs(answer[2], 's');
      assert l == "yes" <==> l[0] == 'y' && l[1] == 'e' && l[2] == 's';
    }
  }
}
