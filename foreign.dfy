/** The collaborators the rename pipeline calls but does not implement: the
    Unicode character tables and the regular-expression engine. Each one is
    a value of function type handed to the pipeline, so the model never
    fixes more of their behaviour than is stated here. */
module Foreign {

  datatype Option<+T> = None | Some(value: T)

  /** The two Unicode classification tables that the sanitizer consults
      (letter: general category L; digit: category Nd). */
  datatype UnicodeTables = UnicodeTables(isLetter: char -> bool, isDigit: char -> bool)
  {
    /** The facts about the ASCII block that every Unicode version agrees on:
        its only letters are A-Z and a-z, its only decimal digits are 0-9.
        In particular '/' and '.' are neither. */
    predicate WellFormed()
    {
      && (forall c: char :: c < '\U{80}' ==> (isLetter(c) <==> IsAsciiLetter(c)))
      && (forall c: char :: c < '\U{80}' ==> (isDigit(c) <==> IsAsciiDigit(c)))
    }
  }

  predicate IsAsciiLetter(c: char)
  {
    ('A' <= c <= 'Z') || ('a' <= c <= 'z')
  }

  predicate IsAsciiDigit(c: char)
  {
    '0' <= c <= '9'
  }

  /** A compiled regular expression; it remembers the source it came from. */
  datatype Regexp = Regexp(expr: string)

  /** The regular-expression engine: which sources compile, and the
      replace-every-match operation of a compiled expression
      (`replaceAll(re, template, input)`). */
  datatype RegexEngine = RegexEngine(
    compiles: string -> bool,
    replaceAll: (Regexp, string, string) -> string)
  {
    /** Compiling a source the engine accepts. */
    function Compile(expr: string): (re: Regexp)
      requires compiles(expr)
    {
      Regexp(expr)
    }
  }
}
