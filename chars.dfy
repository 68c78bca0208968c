/** Control characters that have no escape of their own in Dafny's character literals. */
module Chars {
  const Nul: char := 0 as char
  const Backspace: char := 8 as char
  const VerticalTab: char := 11 as char
  const FormFeed: char := 12 as char
}
