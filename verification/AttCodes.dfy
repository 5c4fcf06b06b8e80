/** Opcodes and error codes of the ATT protocol (att.h). */
module AttCodes {
  import opened Basics

  const ATT_OP_ERROR: byte := 0x01
  const ATT_OP_FIND_INFO_RESP: byte := 0x05
  const ATT_OP_FIND_BY_TYPE_RESP: byte := 0x07
  const ATT_OP_READ_RESP: byte := 0x0B
  const ATT_OP_READ_BLOB_REQ: byte := 0x0C
  const ATT_OP_READ_BLOB_RESP: byte := 0x0D
  const ATT_OP_READ_BY_GROUP_RESP: byte := 0x11
  const ATT_OP_WRITE_REQ: byte := 0x12
  const ATT_OP_PREP_WRITE_REQ: byte := 0x16
  const ATT_OP_PREP_WRITE_RESP: byte := 0x17
  const ATT_OP_EXEC_WRITE_REQ: byte := 0x18
  const ATT_OP_HANDLE_IND: byte := 0x1D
  const ATT_OP_HANDLE_CNF: byte := 0x1E

  const ATT_ECODE_INVALID_PDU: byte := 0x04
  const ATT_ECODE_ATTR_NOT_FOUND: byte := 0x0A
  const ATT_ECODE_UNLIKELY: byte := 0x0E
  const ATT_ECODE_IO: byte := 0x80
  const ATT_ECODE_TIMEOUT: byte := 0x81
  const ATT_ECODE_ABORTED: byte := 0x82

  const ATT_WRITE_ALL_PREP_WRITES: byte := 0x01
}
