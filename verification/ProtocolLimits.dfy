/** The size limits of the proxy protocol. */
module ProtocolLimits {
  const MAX_MESSAGE_LENGTH: nat := 2048
  const MAX_PADDING_LENGTH: nat := 4096
  const MAX_UDP_SIZE: nat := 4096
}
