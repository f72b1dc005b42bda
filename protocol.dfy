/** Wire constants shared by the host encoder (sled/out_udp.c) and the
    device reassembler (esp32/main/main.c), and the small result types
    both sides use. */
module Protocol {

  /** One octet on the wire or in a buffer (uint8_t). */
  newtype byte = x: int | 0 <= x < 256

  /** Payload capacity of one datagram, in encoded bytes (LPKT_SIZE). */
  const LpktSize: nat := 1400

  /** Source RGB bytes consumed per full datagram (PIX_PKT_SIZE):
      LpktSize/2 pixels of 3 bytes each. */
  const PixPktSize: nat := 2100

  /** Largest datagram: header byte, index byte and a full payload
      (sizeof(struct lpacket)). */
  const MaxDatagram: nat := 1402

  /** Header of every fragment but the last of a frame. */
  const HeaderMore: byte := 0xAA

  /** Header of the terminal fragment of a frame. */
  const HeaderLast: byte := 0xE5

  datatype Option<+T> = None | Some(value: T)

  datatype Result<+T, +E> = Ok(value: T) | Err(error: E)
}
