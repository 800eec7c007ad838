/** The pattern parser of the command-line front end (src/main.rs). */
module Grep {
  import opened Chars
  import opened Regex

  /** Why a pattern was refused. */
  datatype ParseError =
    | TrailingBackslash
    | UnhandledPattern(pattern: string)

  datatype Result<T> = Ok(value: T) | Err(error: ParseError)

  /** The language the parser accepts, stated by the shape of the pattern:
      the empty pattern, one character other than a backslash, or a
      backslash followed by exactly one character. */
  function Parse(pattern: string): Result<RegexPattern>
  {
    if |pattern| == 0 then Ok(Empty)
    else if pattern == "\\" then Err(TrailingBackslash)
    else if |pattern| == 2 && pattern[0] == '\\' then
      Ok(if pattern[1] == 'd' then Digit else Char(pattern[1]))
    else if |pattern| == 1 then Ok(Char(pattern[0]))
    else Err(UnhandledPattern(pattern))
  }

  /** `parse_pattern`: reads one atom from the character stream, then demands
      that nothing is left. */
  method ParsePattern(pattern: string) returns (r: Result<RegexPattern>)
    ensures r == Parse(pattern)
  {
    var stream := new CharStream(pattern);
    var res: Result<RegexPattern>;
    var first := stream.Next();
    match first {
      case Some(chr) =>
        if chr == '\\' {
          var second := stream.Next();
          match second {
            case Some(escaped) =>
              res := if escaped == 'd' then Ok(Digit) else Ok(Char(escaped));
            case None =>
              return Err(TrailingBackslash);
          }
        } else {
          res := Ok(Char(chr));
        }
      case None =>
        res := Ok(Empty);
    }
    var rest := stream.Next();
    if rest.None? {
      r := res;
    } else {
      r := Err(UnhandledPattern(pattern));
    }
  }

  /** Every outcome of the parser, case by case. */
  lemma ParseCases(s: string)
    ensures s == "" ==> Parse(s) == Ok(Empty)
    ensures s == "\\d" ==> Parse(s) == Ok(Digit)
    ensures |s| == 2 && s[0] == '\\' && s[1] != 'd' ==> Parse(s) == Ok(Char(s[1]))
    ensures |s| == 1 && s[0] != '\\' ==> Parse(s) == Ok(Char(s[0]))
    ensures s == "\\" ==> Parse(s) == Err(TrailingBackslash)
    ensures |s| >= 2 && s[0] != '\\' ==> Parse(s) == Err(UnhandledPattern(s))
    ensures |s| >= 3 && s[0] == '\\' ==> Parse(s) == Err(UnhandledPattern(s))
  {
  }

  /** Parsing succeeds exactly on the accepted language. */
  lemma ParseSucceedsIff(s: string)
    ensures Parse(s).Ok? <==>
      s == "" || (|s| == 1 && s[0] != '\\') || (|s| == 2 && s[0] == '\\')
  {
  }

  /** The canonical pattern text of an atom: the shortest input the parser
      turns into it. */
  function Render(p: RegexPattern): (s: string)
    ensures |s| <= 2
  {
    match p
    case Empty => ""
    case Digit => "\\d"
    case Char(c) => if c == '\\' then "\\\\" else [c]
  }

  /** Parsing the canonical text of an atom gives the atom back. */
  lemma ParseRender(p: RegexPattern)
    ensures Parse(Render(p)) == Ok(p)
  {
  }

  /** Distinct atoms have distinct canonical texts. */
  lemma RenderInjective(p: RegexPattern, q: RegexPattern)
    requires Render(p) == Render(q)
    ensures p == q
  {
    ParseRender(p);
    ParseRender(q);
  }

  /** Whatever parses, its canonical text parses to the same atom and is no
      longer than the input. */
  lemma ParseCanonical(s: string)
    requires Parse(s).Ok?
    ensures Parse(Render(Parse(s).value)) == Parse(s)
    ensures |Render(Parse(s).value)| <= |s|
  {
    ParseRender(Parse(s).value);
  }
}
