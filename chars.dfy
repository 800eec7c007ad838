/** The character iterator both core functions advance: Rust's `str::chars()`,
    which yields the Unicode scalar values of a string one at a time and keeps
    yielding `None` once the string is exhausted. */
module Chars {

  datatype Option<T> = None | Some(value: T)

  /** A cursor over a fixed string; `pos` is how many characters `Next` has
      already handed out. */
  class CharStream {
    const text: string
    var pos: nat

    ghost predicate Valid()
      reads this
    {
      pos <= |text|
    }

    constructor (s: string)
      ensures Valid() && text == s && pos == 0
    {
      text := s;
      pos := 0;
    }

    /** `Iterator::next`: the next character and one step forward, or `None`
        (and no step) at the end. */
    method Next() returns (o: Option<char>)
      requires Valid()
      modifies this
      ensures Valid()
      ensures old(pos) < |text| ==> o == Some(text[old(pos)]) && pos == old(pos) + 1
      ensures old(pos) == |text| ==> o == None && pos == old(pos)
    {
      if pos < |text| {
        o := Some(text[pos]);
        pos := pos + 1;
      } else {
        o := None;
      }
    }
  }
}
