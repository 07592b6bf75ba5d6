/** The records the application passes around: a decoded repetition and the
    wireless devices it scans for and connects to. */
module Types {
  import opened Wrappers

  type byte = x: int | 0 <= x < 0x100
  type u16 = x: int | 0 <= x < 0x1_0000

  /** One repetition as reported by the sensor. Every measurement is an
      unsigned 16-bit word that is absent when the payload was too short to
      hold it; `recordedAt` is the receiver's clock in milliseconds. */
  datatype Rep = Rep(
    deviceRepId: Option<u16>,
    repNumber: Option<u16>,
    averageVelocity: Option<u16>,
    rom: Option<u16>,
    peakVelocity: Option<u16>,
    peakHeight: Option<u16>,
    duration: Option<u16>,
    other1: Option<u16>,
    other2: Option<u16>,
    other3: Option<u16>,
    recordedAt: int)

  /** The measurement in wire position `k` of the telemetry payload. */
  function Field(r: Rep, k: nat): Option<u16>
    requires k < 10
  {
    match k
    case 0 => r.deviceRepId
    case 1 => r.repNumber
    case 2 => r.averageVelocity
    case 3 => r.rom
    case 4 => r.peakVelocity
    case 5 => r.peakHeight
    case 6 => r.duration
    case 7 => r.other1
    case 8 => r.other2
    case _ => r.other3
  }

  /** A device handle returned by the transport: its address and advertised name. */
  datatype Device = Device(id: string, name: Option<string>)

  /** The identity stored for reconnecting to the last sensor. */
  datatype DeviceInfo = DeviceInfo(name: Option<string>, id: string)
}
