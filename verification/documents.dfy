/** Identifiers of stored documents. */
module Documents {

  /** A store-generated document identifier. Generation is outside the
      model: each insert is handed the identifier to use. */
  type Id = string
}
