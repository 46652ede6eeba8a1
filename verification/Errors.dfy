/** The return codes of the driver. */
module Errors {
  const GSUSB_OK := 0
  const GSUSB_ERR_IO := -1
  const GSUSB_ERR_TIMEOUT := -5
  const GSUSB_ERR_INVALID := -6
  const GSUSB_ERR_BUSY := -7
  const GSUSB_ERR_NO_BITTIMING_SOLUTION := -8

  /** Success is zero, every error is negative, and no two are the same. */
  lemma CodesAreTold()
    ensures GSUSB_OK == 0 && GSUSB_ERR_IO == -1 && GSUSB_ERR_TIMEOUT == -5 && GSUSB_ERR_INVALID == -6
    ensures GSUSB_ERR_BUSY == -7 && GSUSB_ERR_NO_BITTIMING_SOLUTION == -8
  {}
}
