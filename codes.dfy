/** Constants and small types shared by the whole bridge model (usb2sock/usb2sock.c). */
module Codes {

  // The program's own enumeration (usb2sock.c:74-80).
  const GogglesWantCfg: int := 1
  const VendorIdDji: int := 0x2ca3
  const DeviceIdGoggles: int := 0x001f
  /** Sentinel for "device gone, wait for it to come back". */
  const WaitForHotplug: int := 0xca0

  /** Capacity of the client list, `int clientlist[1024]`. */
  const MaxClients: nat := 1024
  /** Size of the transfer buffer, `unsigned char buf[128*1024]`. */
  const BufSize: nat := 128 * 1024
  /** Length of the handshake packet "RMVT" without its terminating NUL. */
  const MagicLen: int := 4
  /** `sizeof(struct sockaddr_in)`: the address length accept() must report. */
  const SockAddrInLen: int := 16

  // libusb_error values used by the bridge.
  const ErrorIo: int := -1
  const ErrorNoDevice: int := -4
  const ErrorNotFound: int := -5
  const ErrorTimeout: int := -7

  // errno values of the platform the bridge targets (Darwin), where both names are 35.
  const EAgain: int := 35
  const EWouldBlock: int := 35

  /** The test `r == EWOULDBLOCK || r == EAGAIN` the socket code applies to errno. */
  predicate IsWouldBlock(errno: int) {
    errno == EWouldBlock || errno == EAgain
  }

  /** A file descriptor returned by accept(): a non-negative C int. */
  type Fd = x: int | 0 <= x < 0x8000_0000

  /** A libusb status: LIBUSB_SUCCESS (0) or a negative libusb_error. */
  type Status = r: int | r <= 0

  /** A byte of a USB descriptor (uint8_t). */
  type Byte = b: int | 0 <= b < 256

  datatype Option<T> = None | Some(value: T)
}
