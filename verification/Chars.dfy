/** The C character function (in the "C" locale) that the text matchers rely on. */
module Chars {

  // `tolower`
  function LowerChar(c: char): char { if 'A' <= c <= 'Z' then (c as int + 32) as char else c }
}
