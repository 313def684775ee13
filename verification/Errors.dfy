/** Result codes (ncftp_errno.h). */
module Errors {
  const K_NO_ERR := 0
  const K_ERR_NEW_STREAM_SOCKET := -106
  const K_ERR_GET_SOCK_NAME := -110
  const K_ERR_BIND_DATA_SOCKET := -111
  const K_ERR_LISTEN_DATA_SOCKET := -112
  const K_ERR_PASSIVE_MODE_FAILED := -113
  const K_ERR_SERVER_SENT_BOGUS_PORT_NUMBER := -114
  const K_ERR_CONNECT_DATA_SOCKET := -115
  const K_ERR_ACCEPT_DATA_SOCKET := -116
  const K_ERR_SET_START_POINT := -117
  const K_ERR_BAD_TRANSFER_TYPE := -121
  const K_ERR_MALLOC_FAILED := -123
  const K_ERR_STOR_FAILED := -132
  const K_ERR_WRITE_FAILED := -133
  const K_ERR_READ_FAILED := -134
  const K_ERR_SOCKET_WRITE_FAILED := -135
  const K_ERR_SOCKET_READ_FAILED := -136
  const K_ERR_TYPE_FAILED := -147
  const K_ERR_REMOTE_HOST_CLOSED_CONNECTION := -158
  const K_ERR_COULD_NOT_START_DATA_TRANSFER := -160
  const K_ERR_DATA_TRANSFER_FAILED := -161
  const K_ERR_PORT_FAILED := -162
  const K_ERR_DATA_TRANSFER_ABORTED := -169
  const K_ERR_DATA_TIMED_OUT := -194
  const K_ERR_REMOTE_SAME_AS_LOCAL := -197
  const K_ERR_PROXY_DATA_CONNECTIONS_DISABLED := -198
  const K_ERR_DATA_CONN_ORIGINATED_FROM_BAD_PORT := -199
  const K_ERR_ASCII_SEEK_ERR := -204

  /** The result of a transfer that has failed. */
  predicate Failure(result: int) {
    result < 0 && result != K_ERR_REMOTE_SAME_AS_LOCAL
  }
}
