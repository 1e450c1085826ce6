/** Values shared by the components: bytes and the part of `struct pcanfd_msg`
    that travels through the transmit path. */
module Can {

  type Byte = b: int | 0 <= b < 256

  type Word = w: int | 0 <= w < 0x1_0000_0000

  /** A frame queued for transmission. The boolean fields are the bits of
      `flags` the transmit path reads; `data` holds `data_len` bytes. */
  datatype TxMsg = TxMsg(id: Word, ext: bool, rtr: bool, slf: bool, sng: bool, status: bool, data: seq<Byte>)

  /** A word is made of its bytes. */
  lemma BytesOfWord(x: Word)
    ensures x % 0x100 + 0x100 * (x / 0x100 % 0x100) + 0x1_0000 * (x / 0x1_0000 % 0x100)
            + 0x100_0000 * (x / 0x100_0000) == x
  {
  }
}
