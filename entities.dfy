/** The response records of internal/entities/response.go. */
module Entities {

  /** A Go `error`, kept as its message text. */
  type Error = string

  /** A 64-bit IEEE 754 value, kept as its bit pattern; the model never inspects it. */
  type Float64 = bv64

  /** One entry of the currency list: its code (as in `?from=IDR`) and its display name. */
  datatype Currency = Currency(code: string, name: string)

  /** The rate of one day: the date text the day was requested with, and the rate. */
  datatype CurrencyHistory = CurrencyHistory(date: string, value: Float64)
}
