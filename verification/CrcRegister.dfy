/** The shift register behind PNG's CRC-32: one bit at a time, and four bits at a time by table. */
module CrcRegister {

  /** One bit of the reflected CRC-32 polynomial. */
  function BitStep(c: bv32): bv32 {
    if c & 1 == 1 then (c >> 1) ^ 0xedb88320 else c >> 1
  }

  function FourBits(c: bv32): bv32 { BitStep(BitStep(BitStep(BitStep(c)))) }

  /** The source's table, indexed by the four low bits. */
  function Table(i: bv32): bv32 {
    if i == 0 then 0
    else if i == 1 then 0x1db71064
    else if i == 2 then 0x3b6e20c8
    else if i == 3 then 0x26d930ac
    else if i == 4 then 0x76dc4190
    else if i == 5 then 0x6b6b51f4
    else if i == 6 then 0x4db26158
    else if i == 7 then 0x5005713c
    else if i == 8 then 0xedb88320
    else if i == 9 then 0xf00f9344
    else if i == 10 then 0xd6d6a3e8
    else if i == 11 then 0xcb61b38c
    else if i == 12 then 0x9b64c2b0
    else if i == 13 then 0x86d3d2d4
    else if i == 14 then 0xa00ae278
    else 0xbdbdf21c
  }

  function NibbleStep(c: bv32): bv32 { (c >> 4) ^ Table(c & 15) }

  /** One table lookup is four bit steps, whatever the register holds. */
  lemma NibbleIsFourBits(c: bv32)
    ensures NibbleStep(c) == FourBits(c)
  {
    var i := c & 15;
    if i == 0 {} else if i == 1 {} else if i == 2 {} else if i == 3 {} else if i == 4 {}
    else if i == 5 {} else if i == 6 {} else if i == 7 {} else if i == 8 {} else if i == 9 {}
    else if i == 10 {} else if i == 11 {} else if i == 12 {} else if i == 13 {} else if i == 14 {}
  }
}
