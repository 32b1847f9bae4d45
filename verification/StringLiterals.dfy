/** JavaScript string and template literals, as the two lexical scanners see them. */
module StringLiterals {
  // A character of a literal, or a backslash and the character it escapes.
  datatype Part = Ch(c: char) | Esc(c: char)

  function ShowPart(p: Part): string {
    match p
    case Ch(c) => [c]
    case Esc(c) => ['\\', c]
  }

  function ShowParts(parts: seq<Part>): string {
    if parts == [] then "" else ShowPart(parts[0]) + ShowParts(parts[1..])
  }
}
