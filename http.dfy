/**
 * The header encoding the CloudFront edge runtimes use: one occurrence of a
 * header is a record holding its value.
 */
module Http {

  /** One header occurrence, `{value: ...}`. */
  datatype HeaderEntry = HeaderEntry(value: string)
}
