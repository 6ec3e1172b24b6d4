/** The gateway's shared constants and the sensor reading record (config.h). */
module Config {

  /** Lowest TCP port the gateway accepts on its command line. */
  const MIN_PORT: int := 1024

  /** Alert thresholds for the running average, in degrees. */
  const SET_MIN_TEMP: real := 10.0
  const SET_MAX_TEMP: real := 20.0

  /** Size of the log reader's message array, terminator included. */
  const LOG_MSG_MAX_LEN: nat := 300

  /** Number of slots in a sensor's circular running-average buffer. */
  const RUN_AVG_LENGTH: nat := 5

  /** Values of status_t. */
  const SUCCESS: int := 0
  const ERR_FILE_IO: int := -1

  /** uint16_t, the width of sensor and room ids. */
  type U16 = x: int | 0 <= x < 0x1_0000

  /** One measurement: sensor id, temperature (an idealised double) and time_t stamp. */
  datatype Reading = Reading(id: U16, value: real, ts: int)

  /** Id 0 is reserved for the end-of-stream marker. */
  predicate IsEndMarker(r: Reading)
  {
    r.id == 0
  }

  /** The marker the connection manager inserts once all client workers have finished:
      `{.id = 0}`, every other field zero. */
  const END_MARKER: Reading := Reading(0, 0.0, 0)
}
