/** The catalog record. */
module Items {

  /** One catalog entry: its display name, the integer registration number
      read from the first column, and the scene it belongs to (the source's
      `type` field, a reserved word here, so called `kind`). The random
      `UUID` identity of the source record is not modelled, so two entries
      with the same three fields are the same value. */
  datatype Item = Item(name: string, index: int, kind: string)
}
