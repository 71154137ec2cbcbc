/** Rate-limit settings of a client. */
module RateLimit {
  import opened Machine

  datatype Settings = Settings(clientId: string, capacity: int64, rate: int64)
}
