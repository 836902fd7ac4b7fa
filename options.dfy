/** The optional value used for the snake's pending direction and erased tail cell,
    both of which start out as `None` in the game. */
module Options {
  datatype Option<T> = None | Some(value: T)
}
