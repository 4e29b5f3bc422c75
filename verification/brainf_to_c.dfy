/**
 * The first draft of the translator (brainf-to-lang/brainf-to-c.c). Only its
 * `parse_file` does any work: it keeps the six commands that are not
 * brackets. The draft never grew loop support, so `[` and `]` are dropped
 * along with comments.
 */
module BrainfToC {
  import opened Commands

  /**
   * `parse_file` of the first draft: reads `len` bytes, keeps the six
   * non-bracket commands, appends a NUL and returns `len` itself. As in the
   * later draft the NUL only fits in the `len`-byte buffer when at least one
   * byte was dropped.
   */
  function ParseFile(file: seq<char>, len: nat): (r: Parsed)
    requires len <= |file|
    requires |Keep(file[..len], BasicAlphabet)| < len
    ensures r.input == Keep(file[..len], BasicAlphabet) + [NUL]
    ensures |r.input| <= r.length == len
    ensures forall i :: 0 <= i < |r.input| - 1 ==> r.input[i] !in Brackets && r.input[i] != NUL
  {
    var kept := FilterLoop(file, BasicAlphabet, 0, len, []);
    Parsed(kept + [NUL], len)
  }

  /**
   * Dropping brackets is the only difference from the eight-symbol filter:
   * the first draft keeps exactly what the later drafts keep, minus `[`
   * and `]`.
   */
  lemma BracketsOnlyDifference(file: seq<char>, len: nat)
    requires len <= |file|
    requires |Keep(file[..len], BasicAlphabet)| < len
    ensures ParseFile(file, len).input == Keep(Keep(file[..len], Alphabet), BasicAlphabet) + [NUL]
  {
    KeepNested(file[..len], Alphabet, BasicAlphabet);
    assert Alphabet * BasicAlphabet == BasicAlphabet;
  }
}
