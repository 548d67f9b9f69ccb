/** The enumerations of lib/enums.js that the core uses. */
module Enums {

  /** The kind of a connection: a scheduled route, a walking transfer, or a
      hypothetical connection under evaluation. */
  datatype EdgeType = ROUTE | TRANSFER | THEORETICAL
}
