module Money {
  // Amounts of money, in the smallest unit.

  const COIN := 100000000
  const MAX_MONEY := 126000000 * COIN
}
