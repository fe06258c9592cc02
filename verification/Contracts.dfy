/** models/contracts.py: what several parts of the enrichment share. */
module Contracts {

  /** `EnrichmentStatus`. */
  datatype Status = Success | Partial | Degraded | Unavailable | Stale | Failed | Disabled
}
