/** The constants of protocol/rtmp_consts.hpp, common/error.hpp and common/buffer.cpp in use. */
module RtmpConsts {
  const SUCCESS := 0
  /** ReadMessageHeader's errors all surface as 1 (protocol/rtmp_stack.cpp:611). */
  const HEADER_FAILED := 1
  const ERROR_SOCKET_READ := 1007
  const ERROR_SOCKET_WRITE := 1009
  const ERROR_READER_BUFFER_OVERFLOW := 1022
  const ERROR_RTMP_CHUNK_START := 2001
  const ERROR_RTMP_AMF0_DECODE := 2003
  const ERROR_PROTOCOL_AMF0_INVALID := 2004
  const ERROR_RTMP_MESSAGE_DECODE := 2007
  const ERROR_PROTOCOL_AMF0_ENCODE := 2009

  const RECV_BUFFER_SIZE := 131072
  const MAX_SOCKET_BUFFER_SIZE := 262144

  const DEFAULT_CHUNK_SIZE := 128
  const MIN_CHUNK_SIZE := 128
  const CHUNK_STREAM_CACHE := 16
  const FMT0_HEADER_SIZE := 16
  const IOVS_MAX := 256
  const C0C3_HEADERS_MAX := 4096
  /** The local limit of SendLargeIovs (common/socket.cpp:149). */
  const IOVS_PER_WRITE := 1024

  /** The extended-timestamp threshold in the code, and the one of section 5.3.1.3. */
  const THRESHOLD_AS_WRITTEN := 0xffff_ffff
  const THRESHOLD_OF_SPECIFICATION := 0xff_ffff
  const MAX_FIELD24 := 0xff_ffff

  const CID_PROTOCOL_CONTROL := 2
  const MSG_SET_CHUNK_SIZE := 1
  const MSG_USER_CONTROL := 4
  const MSG_WINDOW_ACK_SIZE := 5
  const EVENT_SET_BUFFER_LEN := 3
  const EVENT_FMS_EVENT0 := 0x1a

  const AMF0_NUMBER := 0x00
  const AMF0_BOOLEAN := 0x01
  const AMF0_STRING := 0x02
  const AMF0_OBJECT := 0x03
  const AMF0_NULL := 0x05
  const AMF0_UNDEFINED := 0x06
  const AMF0_ECMA_ARRAY := 0x08
  const AMF0_OBJECT_END := 0x09
  const AMF0_STRICT_ARRAY := 0x0a
  const AMF0_DATE := 0x0b
}
