/** The configuration record the arbiter is built from (internal/config/config.go). */
module Config {

  /** One managed service as listed in the configuration. */
  datatype Service = Service(name: string, displayName: string, baseUrl: string, priority: int)
}
