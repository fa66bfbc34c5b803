/** The status codes of c-ares that the models use (`ares.h`). */
module AresStatus {

  const ARES_SUCCESS := 0
  const ARES_EBADQUERY := 7
  const ARES_EBADNAME := 8
  const ARES_ECONNREFUSED := 11
  const ARES_ETIMEOUT := 12
  const ARES_ENOMEM := 15
  const ARES_EDESTRUCTION := 16
  const ARES_ECANCELLED := 24
}
