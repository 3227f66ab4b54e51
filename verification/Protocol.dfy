/** Function codes, limits and error numbers (section 6 of the MODBUS Application Protocol V1.1b). */
module Protocol {

  const READ_COILS := 0x01
  const READ_DISCRETE_INPUTS := 0x02
  const READ_HOLDING_REGISTERS := 0x03
  const READ_INPUT_REGISTERS := 0x04
  const WRITE_SINGLE_COIL := 0x05
  const WRITE_SINGLE_REGISTER := 0x06
  const READ_EXCEPTION_STATUS := 0x07
  const WRITE_MULTIPLE_COILS := 0x0F
  const WRITE_MULTIPLE_REGISTERS := 0x10
  const REPORT_SLAVE_ID := 0x11
  const MASK_WRITE_REGISTER := 0x16
  const WRITE_AND_READ_REGISTERS := 0x17

  const MAX_READ_BITS := 2000
  const MAX_WRITE_BITS := 1968
  const MAX_READ_REGISTERS := 125
  const MAX_WRITE_REGISTERS := 123
  const MAX_WR_WRITE_REGISTERS := 121
  const MAX_WR_READ_REGISTERS := 125

  const ILLEGAL_FUNCTION := 1
  const ILLEGAL_DATA_ADDRESS := 2
  const ILLEGAL_DATA_VALUE := 3
  const EXCEPTION_MAX := 12

  const ENOBASE := 112345678
  const EMBBADCRC := ENOBASE + 12
  const EMBBADDATA := ENOBASE + 13
  const EMBBADEXC := ENOBASE + 14
  const EMBMDATA := ENOBASE + 16
  const EMBBADSLAVE := ENOBASE + 17
  const EINVAL := 22
  const ECONNRESET := 104
  const ETIMEDOUT := 110
}
