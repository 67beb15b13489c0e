/** An optional value, used for the body slots that the game leaves empty (NULL). */
module Optional {
  datatype Option<+T> = None | Some(value: T)
}
