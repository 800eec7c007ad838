/** The pattern atom and its containment check (src/regex.rs). */
module Regex {
  import opened Chars

  /** One parsed pattern atom. */
  datatype RegexPattern = Char(c: char) | Digit | Empty

  /** The range `'0'..='9'` the `Digit` atom accepts. */
  predicate IsDigit(ch: char)
  {
    '0' <= ch <= '9'
  }

  /** What containment means: the empty atom is found in every haystack, a
      literal where some position holds that character, `Digit` where some
      position holds an ASCII digit. */
  ghost predicate Contained(p: RegexPattern, haystack: string)
  {
    match p
    case Empty => true
    case Char(c) => exists i :: 0 <= i < |haystack| && haystack[i] == c
    case Digit => exists i :: 0 <= i < |haystack| && IsDigit(haystack[i])
  }

  /** The scan of the `Digit` arm: walks the haystack with a character
      iterator and stops at the first digit. `at` is where it stopped. */
  method ScanDigits(haystack: string) returns (found: bool, ghost at: nat)
    ensures found <==> exists i :: 0 <= i < |haystack| && IsDigit(haystack[i])
    ensures found ==> at < |haystack| && IsDigit(haystack[at])
    ensures found ==> forall k :: 0 <= k < at ==> !IsDigit(haystack[k])
  {
    var chars := new CharStream(haystack);
    while true
      invariant chars.Valid() && chars.text == haystack
      invariant forall k :: 0 <= k < chars.pos ==> !IsDigit(haystack[k])
      decreases |haystack| - chars.pos
    {
      ghost var before := chars.pos;
      var next := chars.Next();
      match next
      case None =>
        return false, before;
      case Some(chr) =>
        if IsDigit(chr) {
          return true, before;
        }
    }
  }

  /** `RegexPattern::is_contained_in`. */
  method IsContainedIn(p: RegexPattern, haystack: string) returns (r: bool)
    ensures r <==> Contained(p, haystack)
  {
    match p
    case Char(c) =>
      r := c in haystack;
    case Digit =>
      ghost var at;
      r, at := ScanDigits(haystack);
    case Empty =>
      r := true;
  }

  /** Only the empty atom is found in the empty haystack. */
  lemma EmptyHaystack(p: RegexPattern)
    ensures Contained(p, []) <==> p == Empty
  {
  }

  /** Containment in a concatenation is containment in one of its parts. */
  lemma {:induction false} ContainedConcat(p: RegexPattern, a: string, b: string)
    ensures Contained(p, a + b) <==> Contained(p, a) || Contained(p, b)
  {
    match p
    case Empty =>
    case Char(c) =>
      if Contained(p, a + b) {
        var i :| 0 <= i < |a + b| && (a + b)[i] == c;
        if i >= |a| {
          assert b[i - |a|] == c;
        }
      }
      if Contained(p, b) {
        var j :| 0 <= j < |b| && b[j] == c;
        assert (a + b)[|a| + j] == c;
      }
      if Contained(p, a) {
        var j :| 0 <= j < |a| && a[j] == c;
        assert (a + b)[j] == c;
      }
    case Digit =>
      if Contained(p, a + b) {
        var i :| 0 <= i < |a + b| && IsDigit((a + b)[i]);
        if i >= |a| {
          assert b[i - |a|] == (a + b)[i];
        }
      }
      if Contained(p, a) {
        var j :| 0 <= j < |a| && IsDigit(a[j]);
        assert (a + b)[j] == a[j];
      }
      if Contained(p, b) {
        var j :| 0 <= j < |b| && IsDigit(b[j]);
        assert (a + b)[|a| + j] == b[j];
      }
  }

  /** A match survives any text added before or after the haystack. */
  lemma {:induction false} ContainedMonotone(p: RegexPattern, a: string, h: string, b: string)
    requires Contained(p, h)
    ensures Contained(p, a + h + b)
  {
    ContainedConcat(p, a, h);
    ContainedConcat(p, a + h, b);
  }

  /** The haystack is matched verbatim, so a line read together with its
      terminating newline always contains the atom `Char('\n')`. */
  lemma {:induction false} NewlineOfLineIsFound(line: string)
    ensures Contained(Char('\n'), line + "\n")
  {
    assert (line + "\n")[|line|] == '\n';
  }
}
