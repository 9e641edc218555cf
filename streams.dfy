/**
 * The line cursor CodeMirror hands to a mode's `token` function: the
 * line's text, the start of the token being read and the current
 * position. Only the operations the spell overlay uses are modelled.
 */
module Streams {
  import opened Wrappers

  class StringStream {
    const line: string
    var start: nat
    var pos: nat

    ghost predicate Valid()
      reads this
    {
      start <= pos <= |line|
    }

    constructor (s: string)
      ensures Valid()
      ensures line == s && start == 0 && pos == 0
    {
      line := s;
      start, pos := 0, 0;
    }

    /** The character at the cursor, without consuming it; `None` at end of line. */
    method Peek() returns (c: Option<char>)
      requires Valid()
      ensures c.Some? <==> pos < |line|
      ensures c.Some? ==> c.value == line[pos]
    {
      if pos < |line| {
        c := Some(line[pos]);
      } else {
        c := None;
      }
    }

    /** Consumes and returns the character at the cursor; at end of line nothing moves. */
    method Next() returns (c: Option<char>)
      requires Valid()
      modifies this`pos
      ensures Valid()
      ensures c.Some? <==> old(pos) < |line|
      ensures c.Some? ==> c.value == line[old(pos)] && pos == old(pos) + 1
      ensures c.None? ==> pos == old(pos)
    {
      if pos < |line| {
        c := Some(line[pos]);
        pos := pos + 1;
      } else {
        c := None;
      }
    }

    /** The text consumed since the token started. */
    method Current() returns (s: string)
      requires Valid()
      ensures |s| == pos - start
      ensures forall k :: 0 <= k < |s| ==> s[k] == line[start + k]
    {
      s := line[start..pos];
    }

    /**
     * `match` with a one-character pattern: it succeeds only at the cursor
     * (never further on), and consumes the character when `consume` holds.
     */
    method Match(p: char -> bool, consume: bool) returns (matched: bool)
      requires Valid()
      modifies this`pos
      ensures Valid()
      ensures matched <==> old(pos) < |line| && p(line[old(pos)])
      ensures pos == if matched && consume then old(pos) + 1 else old(pos)
    {
      matched := pos < |line| && p(line[pos]);
      if matched && consume {
        pos := pos + 1;
      }
    }
  }
}
