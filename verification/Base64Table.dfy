/** The table that `base64_encode` looks its digits up in. */
module Base64Table {
  import opened Base64

  const LOOKUP: string := "ABCDEFGHIJKLMNOPQRSTUVWXYZabcdefghijklmnopqrstuvwxyz0123456789+/"

  function AllDigits(): string {
    [Digit(0), Digit(1), Digit(2), Digit(3), Digit(4), Digit(5), Digit(6), Digit(7), Digit(8), Digit(9),
     Digit(10), Digit(11), Digit(12), Digit(13), Digit(14), Digit(15), Digit(16), Digit(17), Digit(18),
     Digit(19), Digit(20), Digit(21), Digit(22), Digit(23), Digit(24), Digit(25), Digit(26), Digit(27),
     Digit(28), Digit(29), Digit(30), Digit(31), Digit(32), Digit(33), Digit(34), Digit(35), Digit(36),
     Digit(37), Digit(38), Digit(39), Digit(40), Digit(41), Digit(42), Digit(43), Digit(44), Digit(45),
     Digit(46), Digit(47), Digit(48), Digit(49), Digit(50), Digit(51), Digit(52), Digit(53), Digit(54),
     Digit(55), Digit(56), Digit(57), Digit(58), Digit(59), Digit(60), Digit(61), Digit(62), Digit(63)]
  }

  /** The digits are the entries of the table, in its order. */
  lemma DigitsAreTable()
    ensures AllDigits() == LOOKUP
  {
    assert |AllDigits()| == |LOOKUP| == 64;
  }
}
