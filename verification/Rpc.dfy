/** Errors of the RPC layer, `fs-core/src/lib.rs`, without their texts. */
module Rpc {
  datatype RpcError = ConnectionClosed | FrameTooLarge | Malformed | Timeout | Transport
}
