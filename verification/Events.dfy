/** The event bits, by their position in a word. */
module Events {
  const READ_BIT := 0
  const WRITE_BIT := 2
  const ERROR_BIT := 3
  const HANGUP_BIT := 4
  const CONTINUE_BIT := 32
}
