/** Lines of a text: where they begin, and how many come before an offset. */
module Lines {
  import opened Bytes

  /** The newlines before `p`. */
  function Newlines(text: seq<Byte>, p: nat): nat
    requires p <= |text|
  {
    if p == 0 then 0 else Newlines(text, p - 1) + if text[p - 1] == NEWLINE then 1 else 0
  }

  /** Where the line of `p` begins. */
  function LineStart(text: seq<Byte>, p: nat): (r: nat)
    requires p <= |text|
    ensures r <= p
  {
    if p == 0 then 0 else if text[p - 1] == NEWLINE then p else LineStart(text, p - 1)
  }

  /** The line begins right after the last newline before `p`. */
  lemma {:induction false} LineStartIsAfterNewline(text: seq<Byte>, p: nat)
    requires p <= |text|
    ensures LineStart(text, p) == 0 || text[LineStart(text, p) - 1] == NEWLINE
    ensures forall i :: LineStart(text, p) <= i < p ==> text[i] != NEWLINE
  {
    if p == 0 {
    } else if text[p - 1] != NEWLINE {
      LineStartIsAfterNewline(text, p - 1);
    }
  }
}
