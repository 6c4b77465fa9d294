/** Letter case, as `to_ascii_lowercase` sees it. */
module AsciiCase {
  function Lower(c: char): char {
    if 'A' <= c <= 'Z' then c + ' ' else c
  }
}
