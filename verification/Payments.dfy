/** The payment lifecycle states shared by every job that writes them. */
module Payments {
  datatype Status = DRAFT | PENDING | SWEPT_IN | SWEPT_OUT | ONCHAIN_CONFIRMED | RECONCILING | SETTLED | FAILED

  predicate Terminal(s: Status) {
    s == SETTLED || s == FAILED
  }
}
