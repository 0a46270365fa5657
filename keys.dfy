// The keys both key handlers dispatch on, and which transform each selects:
// ArrowUp and ArrowDown call `moveVertical(c, up)`, ArrowLeft and
// ArrowRight `moveHorizontal(c, left)`.
module Keys {
  import opened Grid
  import opened Tiles

  datatype Key = ArrowUp | ArrowDown | ArrowLeft | ArrowRight | Space | Other

  /** The `switch (event.key)` of both handlers: the direction an arrow key moves in, none for other keys. */
  function Selected(key: Key): (r: Option<Dir>)
    ensures r.Some? <==> key != Space && key != Other
    ensures r.Some? ==> (Vertical(r.value) <==> key == ArrowUp || key == ArrowDown)
    ensures r.Some? ==> (TowardZero(r.value) <==> key == ArrowUp || key == ArrowLeft)
  {
    match key
    case ArrowUp => Some(Up)
    case ArrowDown => Some(Down)
    case ArrowLeft => Some(Left)
    case ArrowRight => Some(Right)
    case _ => None
  }
}
