/** What several parts share: optional values, sequence arithmetic, and the escaping that
    the JSON printers and the emitter have in common. */
module Basics {
  datatype Option<+T> = None | Some(value: T)

  lemma Regroup(a: string, b: string, c: string)
    ensures a + (b + c) == a + b + c
  {
  }

  /** A quote, a backslash, a newline, a tab and a carriage return get a backslash; every
      other character stands for itself. */
  function EscapeChar(c: char): string {
    match c
    case '"' => "\\\""
    case '\\' => "\\\\"
    case '\n' => "\\n"
    case '\t' => "\\t"
    case '\r' => "\\r"
    case _ => [c]
  }

  function Escape(s: string): string {
    if s == "" then "" else EscapeChar(s[0]) + Escape(s[1..])
  }
}
