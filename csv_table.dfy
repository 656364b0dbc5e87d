/** The report table both scanners write: a fixed header row followed by one
    row per item. CSV quoting is below this level; a row is its list of fields. */
module Csv {

  type Row = seq<string>

  type Table = seq<Row>

  /** The header row, in this column order on every run. */
  const Header: Row := ["item", "processed", "error", "total"]
}
