/** The return codes of the MQTT clients. */
module ReturnCodes {
  const BUFFER_OVERFLOW := -2
  const FAILURE := -1
  const SUCCESS := 0
}
