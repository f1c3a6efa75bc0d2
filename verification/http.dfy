/** HTTP status codes the simulator distinguishes. */
module HttpStatus {
  /** The only status code treated as success. */
  const StatusOk: int := 200

  /** The status code of a rejected API key. */
  const StatusUnauthorized: int := 401
}
