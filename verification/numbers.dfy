/** Integer helpers shared by the other modules. */
module Numbers {
  function Min(x: int, y: int): int { if x <= y then x else y }

  function Max(x: int, y: int): int { if x <= y then y else x }
}
