/** The per-request configuration record (`src/config.rs`). It is built once
    per request and only read afterwards. */
module Configuration {
  import opened Common

  /** The 16 bytes of `Uuid::as_bytes`. */
  type Uuid = s: seq<byte> | |s| == 16 witness seq(16, _ => 0)

  datatype Config = Config(
    uuid: Uuid,
    host: string,
    proxyIp: seq<string>,
    redirectUrl: string,
    displayLink: bool
  )
}
