/**
 * The socket address the UDP and TCP calls take (include/socket.h):
 * struct sockaddr_in and the length test both make of it.
 */
module Socket {
  import opened Common

  /** AF_INET and sizeof(struct sockaddr_in). */
  const AF_INET: uint16 := 2
  const SOCKADDR_IN_SIZE: int := 8

  /** struct sockaddr_in: family, port and address (the port as on the wire). */
  datatype SockAddr = SockAddr(family: uint16, port: uint16, addr: uint32)

  /**
   * The length tests of recvfrom, sendto and accept compare an int with
   * a size_t, so a negative length is converted to a large unsigned value
   * and passes: only 0 <= n < 8 is too short.
   */
  predicate TooShort(addrlen: int)
  {
    0 <= addrlen < SOCKADDR_IN_SIZE
  }
}
